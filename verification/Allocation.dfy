/**
  Allocating and freeing disk space: FatAllocateDiskSpace, with its fast path for
  one run and its fragmented path, and FatDeallocateDiskSpace.
 */
module Allocation {
  import opened Bits
  import opened FatEntries
  import opened FatTable
  import opened Windows
  import opened Books
  import opened Volume
  import opened OneWindow
  import opened Sizes

  /** FatAllocateClusters: chains a run together, ending in the last mark. */
  method AllocateClusters(vcb: Vcb, cluster: nat, count: nat)
    requires vcb.fat.Valid() && count > 0
    requires vcb.fat.IndexIsValid(cluster) && vcb.fat.IndexIsValid(cluster + count - 1)
    modifies vcb.fat, vcb.fat.units
    ensures vcb.fat.Valid() && vcb.fat.entries == RunWritten(vcb.fat.bits, old(vcb.fat.entries), cluster, count, true)
  {
    if count == 1 {
      var ok := vcb.fat.SetFatEntry(cluster, FAT_CLUSTER_LAST);
      assert vcb.fat.entries == RunWritten(vcb.fat.bits, old(vcb.fat.entries), cluster, count, true);
    } else {
      var ok := vcb.fat.SetFatRun(cluster, count, true);
    }
  }

  /** FatFreeClusters: marks a run available. */
  method FreeClusters(vcb: Vcb, cluster: nat, count: nat)
    requires vcb.fat.Valid() && count > 0
    requires vcb.fat.IndexIsValid(cluster) && vcb.fat.IndexIsValid(cluster + count - 1)
    modifies vcb.fat, vcb.fat.units
    ensures vcb.fat.Valid() && vcb.fat.entries == RunWritten(vcb.fat.bits, old(vcb.fat.entries), cluster, count, false)
  {
    if count == 1 {
      var ok := vcb.fat.SetFatEntry(cluster, FAT_CLUSTER_AVAILABLE);
      assert vcb.fat.entries == RunWritten(vcb.fat.bits, old(vcb.fat.entries), cluster, count, false);
    } else {
      var ok := vcb.fat.SetFatRun(cluster, count, false);
    }
  }

  /** Pot luck: a run that completes the request if the window may hold one, else the longest run. */
  method SearchWindow(bitmap: array<bool>, clustersFree: nat, remaining: nat) returns (found: nat, index: nat)
    requires remaining > 0 && clustersFree == ClearIn(bitmap[..], 0, bitmap.Length)
    ensures if exists k :: ClearRun(bitmap[..], k, remaining) then found == remaining && ClearRun(bitmap[..], index, found)
      else LongestUpTo(bitmap[..], bitmap.Length, found, index) && (found == 0 ==> index == 0) && found < remaining
  {
    found, index := 0, 0;
    if remaining <= clustersFree {
      var i := FindClearBits(bitmap, remaining, 0);
      if i != -1 {
        return remaining, i;
      }
    } else {
      NoRunBeyondFree(bitmap[..], remaining);
    }
    found, index := FindLongestRunClear(bitmap);
    assert found >= remaining ==> ClearRun(bitmap[..], index, remaining);
  }

  /**
    The search of one pass of the fragmented path: first at the hint, up to the end
    of the window; then by pot luck.  A pass that follows a run up to the end of a
    FAT32 window finds nothing.
   */
  method ChooseRun(vcb: Vcb, remaining: nat, next: bool, hint: int) returns (found: nat, index: nat, next': bool, hint': int)
    requires vcb.Accounts() && remaining > 0 && (hint == 0 || hint >= 2)
    ensures if next then found == 0 && next' && hint' == hint
      else Chosen(vcb.fat.bits.Fat32?, vcb.bitmap[..], remaining, hint, found, index, next', hint')
  {
    hide *;
    AccountsSay(vcb);
    HintTried(false, vcb.bitmap[..], remaining, 0, 0);
    found, index, next', hint' := 0, 0, next, hint;
    if next' {
      return;
    }
    if hint != 0 {
      var desired := vcb.bitmap.Length - (hint - 2);
      if desired < 0 || desired > remaining { // a negative difference is a very large ULONG
        desired := remaining;
      }
      var clear := AreBitsClear(vcb.bitmap, hint - 2, desired);
      HintTried(vcb.fat.bits.Fat32?, vcb.bitmap[..], remaining, hint, desired);
      if clear {
        return desired, hint - 2, vcb.fat.bits.Fat32?, if vcb.fat.bits.Fat32? then 2 else 0;
      }
      hint' := 0;
    }
    found, index := SearchWindow(vcb.bitmap, vcb.windows[vcb.currentWindow].clustersFree, remaining);
    if found < remaining && index + found == vcb.bitmap.Length && vcb.fat.bits.Fat32? {
      next', hint' := true, 2;
    }
    PotLuck(vcb.fat.bits.Fat32?, vcb.bitmap[..], remaining, hint, found, index, next', hint');
  }

  lemma AccountsSay(vcb: Vcb)
    requires vcb.Accounts()
    ensures vcb.currentWindow < vcb.windows.Length && vcb.windows[vcb.currentWindow].clustersFree == ClearIn(vcb.bitmap[..], 0, vcb.bitmap.Length)
  {
    CurrentWindowGood(vcb.fat.bits, vcb.fat.numberOfClusters, vcb.Ledger());
  }

  /** The run at the hint, up to the end of the bitmap, that a pass tries first. */
  ghost predicate HintFree(b: seq<bool>, remaining: nat, hint: int) {
    var desired := if 0 <= |b| - (hint - 2) <= remaining then |b| - (hint - 2) else remaining;
    hint != 0 && desired > 0 && ClearRun(b, hint - 2, desired)
  }

  lemma HintTried(fat32: bool, b: seq<bool>, remaining: nat, hint: int, desired: int)
    requires remaining > 0
    requires hint != 0 ==> desired == if 0 <= |b| - (hint - 2) <= remaining then |b| - (hint - 2) else remaining
    ensures HintFree(b, remaining, hint) <==> hint != 0 && desired > 0 && ClearRun(b, hint - 2, desired)
    ensures HintFree(b, remaining, hint) ==> Chosen(fat32, b, remaining, hint, desired, hint - 2, fat32, if fat32 then 2 else 0)
  {
    hide ClearRun;
  }

  lemma PotLuck(fat32: bool, b: seq<bool>, remaining: nat, hint: int, found: nat, index: nat, next: bool, hint': int)
    requires remaining > 0 && !HintFree(b, remaining, hint)
    requires if exists k :: ClearRun(b, k, remaining) then found == remaining && ClearRun(b, index, found)
      else LongestUpTo(b, |b|, found, index) && (found == 0 ==> index == 0) && found < remaining
    requires next == (found < remaining && index + found == |b| && fat32) && hint' == (if next then 2 else 0)
    ensures Chosen(fat32, b, remaining, hint, found, index, next, hint')
  {
    hide ClearRun;
    hide LongestUpTo;
  }

  lemma NoRunBeyondFree(b: seq<bool>, n: nat)
    requires n > ClearIn(b, 0, |b|)
    ensures forall k :: !ClearRun(b, k, n)
  {
    forall k | ClearRun(b, k, n) ensures false {
      ClearRunCounts(b, k, n);
    }
  }

  /** The window to switch to: the next one if the search is on a roll and that one has free clusters, else the best one. */
  method ChooseWindow(vcb: Vcb, next: bool, hint: int) returns (fave: nat, hint': int)
    requires vcb.Accounts() && vcb.windows.Length > 1 && vcb.precharged > 0
    ensures fave < vcb.windows.Length && vcb.windows[fave].clustersFree > 0
    ensures hint' == hint || hint' == 0
  {
    hint' := hint;
    if next {
      var nextWindow := vcb.currentWindow + 1;
      if nextWindow < vcb.windows.Length && vcb.windows[nextWindow].clustersFree > 0 {
        return nextWindow, hint';
      }
      hint' := 0;
    }
    ghost var ws := vcb.windows[..];
    WindowsFit(vcb.fat.bits, vcb.fat.numberOfClusters, vcb.used, ws);
    SomeWindowHasFree(vcb.fat.bits, vcb.fat.numberOfClusters, vcb.used, ws);
    ghost var k :| 0 <= k < |ws| && ws[k].clustersFree > 0;
    assert vcb.windows[k].clustersFree > 0;
    fave := SelectBestWindow(vcb.windows);
  }

  /** Switches to a window while every view agrees; the books stay in order. */
  method Switch(vcb: Vcb, w: nat)
    requires vcb.Valid() && vcb.windows.Length > 1 && w < vcb.windows.Length
    modifies vcb`bitmap, vcb`currentWindow, vcb`clusterHint, vcb`numberOfFreeClusters, vcb.windows
    ensures vcb.Valid() && fresh(vcb.bitmap) && vcb.currentWindow == w
    ensures vcb.windows[..] == old(vcb.windows[..]) && vcb.numberOfFreeClusters == old(vcb.numberOfFreeClusters)
  {
    ghost var b := vcb.Ledger();
    assert b.windows[w] == vcb.windows[w];
    vcb.SwitchToWindow(w);
    vcb.ScannedShows();
    ghost var b' := vcb.Ledger();
    assert b' == b.(current := w, bitmap := b'.bitmap);
    SwitchKeepsOrder(vcb.fat.bits, vcb.fat.numberOfClusters, b, b');
  }

  lemma SwitchKeepsOrder(bits: IndexBits, n: nat, b: Books, b': Books)
    requires InOrder(bits, n, b) && Shows(b') && b' == b.(current := b'.current, bitmap := b'.bitmap)
    ensures InOrder(bits, n, b')
  {
  }

  /** Takes a run the search has found, links the cluster before it to it, and chains it together. */
  method LinkRun(vcb: Vcb, index: nat, found: nat, ghost e0: seq<nat>, mcb: seq<nat>) returns (mcb': seq<nat>)
    requires vcb.Valid() && 0 < found <= vcb.precharged && ClearRun(vcb.bitmap[..], index, found)
    requires Taken(vcb.fat.bits, e0, vcb.fat.entries, mcb)
    modifies vcb`clusterHint, vcb`used, vcb`precharged, vcb.bitmap, vcb.windows, vcb.fat, vcb.fat.units
    ensures vcb.Valid() && vcb.precharged == old(vcb.precharged) - found
    ensures Taken(vcb.fat.bits, e0, vcb.fat.entries, mcb') && |mcb'| == |mcb| + found
    ensures mcb' == mcb + Run(old(vcb.windows[vcb.currentWindow].firstCluster) + index, found)
    ensures vcb.bitmap[..] == WithSet(old(vcb.bitmap[..]), index, found)
  {
    hide *;
    ghost var e1, b := vcb.fat.entries, vcb.Ledger();
    RunReady(vcb, index, found);
    LinksReady(vcb, e0, mcb);
    var cluster := index + vcb.windows[vcb.currentWindow].firstCluster;
    vcb.TakeRun(index, found);
    TakenSays(vcb, b, index, found);
    if mcb != [] {
      var ok := vcb.fat.SetFatEntry(mcb[|mcb| - 1], cluster);
    }
    AllocateClusters(vcb, cluster, found);
    mcb' := mcb + Run(cluster, found);
    RunIsLinked(vcb.fat.bits, e0, e1, vcb.fat.entries, mcb, cluster, found);
    StillValid(vcb);
  }

  /** What taking a run of the current window starts from. */
  lemma RunReady(vcb: Vcb, index: nat, found: nat)
    requires vcb.Valid() && 0 < found <= vcb.precharged && ClearRun(vcb.bitmap[..], index, found)
    ensures var b, e := vcb.Ledger(), vcb.fat.entries;
      && b.current == vcb.currentWindow < vcb.windows.Length == |b.windows| && b.windows == vcb.windows[..]
      && b.used == vcb.used == UsedBits(e) && b.bitmap == vcb.bitmap[..] && b.precharged == vcb.precharged
      && found <= b.precharged && found <= b.windows[b.current].clustersFree
      && var cluster := vcb.windows[vcb.currentWindow].firstCluster + index;
        && 2 <= cluster && cluster + found <= |e| == vcb.fat.numberOfClusters + 2 <= 0x1000_0000
        && vcb.fat.IndexIsValid(cluster) && vcb.fat.IndexIsValid(cluster + found - 1)
        && forall c :: cluster <= c < cluster + found ==> e[c] == FAT_CLUSTER_AVAILABLE
    ensures vcb.fat.Valid() && vcb.Accounts()
  {
    var b, e := vcb.Ledger(), vcb.fat.entries;
    TakeKeepsOrder(vcb.fat.bits, vcb.fat.numberOfClusters, b, index, found);
    RunInHeap(vcb.fat.bits, vcb.fat.numberOfClusters, b, index, found);
    var cluster := vcb.windows[vcb.currentWindow].firstCluster + index;
    forall c | cluster <= c < cluster + found ensures e[c] == FAT_CLUSTER_AVAILABLE {
      assert !UsedBits(e)[c];
    }
    hide Partition;
    hide TotalFree;
  }

  lemma LinksReady(vcb: Vcb, e0: seq<nat>, mcb: seq<nat>)
    requires vcb.fat.Valid() && Taken(vcb.fat.bits, e0, vcb.fat.entries, mcb)
    ensures mcb != [] ==> vcb.fat.IndexIsValid(mcb[|mcb| - 1])
    ensures FAT_CLUSTER_LAST == 0x0fff_ffff
  {
  }

  lemma TakenSays(vcb: Vcb, b: Books, index: nat, count: nat)
    requires b.current < |b.windows| && count <= b.precharged && count <= b.windows[b.current].clustersFree
    requires vcb.Ledger() == TakeFrom(b, index, count)
    ensures vcb.used == WithSet(b.used, b.windows[b.current].firstCluster + index, count)
    ensures vcb.bitmap[..] == WithSet(b.bitmap, index, count) && vcb.precharged == b.precharged - count
  {
    hide WithSet;
  }

  lemma RunIsLinked(bits: IndexBits, e0: seq<nat>, e1: seq<nat>, e3: seq<nat>, mcb: seq<nat>, cluster: nat, n: nat)
    requires Taken(bits, e0, e1, mcb) && 2 <= cluster && n > 0 && cluster + n <= |e1|
    requires forall c :: cluster <= c < cluster + n ==> e1[c] == FAT_CLUSTER_AVAILABLE
    requires mcb != [] ==> mcb[|mcb| - 1] < |e1|
    requires e3 == RunWritten(bits, if mcb == [] then e1 else e1[mcb[|mcb| - 1] := Truncated(bits, cluster)], cluster, n, true)
    ensures Taken(bits, e0, e3, mcb + Run(cluster, n)) && |mcb + Run(cluster, n)| == |mcb| + n
    ensures UsedBits(e3) == WithSet(UsedBits(e1), cluster, n)
  {
    assert |e1| == |e0| <= EntryLimit(bits) && InHeap(mcb, |e1| - 2);
    hide Taken;
    hide LinkedAs;
    hide RunWritten;
    assert RunLinked(bits, e1, e3, mcb, cluster, n);
    LinkExtend(bits, e0, e1, e3, mcb, mcb + Run(cluster, n), cluster, n);
  }

  lemma StillValid(vcb: Vcb)
    requires vcb.fat.Valid() && vcb.Accounts() && vcb.used == UsedBits(vcb.fat.entries)
    ensures vcb.Valid()
  {
    hide InOrder;
    hide UsedBits;
  }

  lemma RunInHeap(bits: IndexBits, n: nat, b: Books, index: nat, count: nat)
    requires InOrder(bits, n, b) && ClearRun(b.bitmap, index, count) && count > 0
    ensures 2 <= b.windows[b.current].firstCluster + index && b.windows[b.current].firstCluster + index + count <= n + 2
    ensures ClearRun(b.used, b.windows[b.current].firstCluster + index, count)
  {
    PartitionApart(bits, n, b.windows, b.current);
    var first := b.windows[b.current].firstCluster;
    forall c | first + index <= c < first + index + count ensures !b.used[c] {
      assert !b.bitmap[c - first];
    }
  }

  /** The current window has free clusters. */
  ghost predicate HasFree(vcb: Vcb)
    reads vcb, vcb.windows
  {
    vcb.currentWindow < vcb.windows.Length && vcb.windows[vcb.currentWindow].clustersFree > 0
  }

  /** Goes on in another window, one that has free clusters. */
  method SwitchOn(vcb: Vcb, next: bool, hint: int) returns (hint': int)
    requires vcb.Valid() && vcb.windows.Length > 1 && vcb.precharged > 0
    modifies vcb`bitmap, vcb`currentWindow, vcb`clusterHint, vcb`numberOfFreeClusters, vcb.windows
    ensures vcb.Valid() && fresh(vcb.bitmap) && HasFree(vcb)
    ensures vcb.numberOfFreeClusters == old(vcb.numberOfFreeClusters)
    ensures hint' == hint || hint' == 0
  {
    var fave;
    fave, hint' := ChooseWindow(vcb, next, hint);
    ghost var ws := vcb.windows[..];
    assert ws[fave].clustersFree > 0;
    Switch(vcb, fave);
    assert vcb.windows[..][fave] == ws[fave];
  }

  /** A search that is not on a roll finds nothing only in a window without free clusters; a single window is then used up. */
  lemma NothingFound(bits: IndexBits, n: nat, b: Books, remaining: nat, hint: int, index: nat, next: bool, hint': int)
    requires InOrder(bits, n, b) && remaining > 0
    requires Chosen(bits.Fat32?, b.bitmap, remaining, hint, 0, index, next, hint')
    ensures b.windows[b.current].clustersFree == 0
    ensures |b.windows| == 1 ==> b.precharged == 0
  {
    CurrentWindowGood(bits, n, b);
    forall i | 0 <= i < |b.bitmap| ensures b.bitmap[i] {
      assert !b.bitmap[i] ==> ClearRun(b.bitmap, i, 1);
    }
    ClearInUniform(b.bitmap, 0, |b.bitmap|);
    if |b.windows| == 1 {
      FreeCountsAddUp(bits, n, b);
      assert TotalFree(b.windows[..0]) == 0;
    }
  }

  lemma NothingTaken(bits: IndexBits, e: seq<nat>)
    requires 2 <= |e| <= EntryLimit(bits)
    ensures Taken(bits, e, e, [])
  {
  }

  lemma ReadyToTake(vcb: Vcb)
    requires vcb.Valid()
    ensures Taken(vcb.fat.bits, vcb.fat.entries, vcb.fat.entries, []) && vcb.windows.Length > 0
  {
    NothingTaken(vcb.fat.bits, vcb.fat.entries);
  }

  /** A FAT32 volume that fits one window. */
  predicate OneWindowFat32(vcb: Vcb) {
    vcb.fat.bits.Fat32? && vcb.windows.Length == 1
  }

  /** One pass of the fragmented path: searches, and takes and links what it finds. */
  method TakePass(vcb: Vcb, count: nat, remaining: nat, next: bool, hint: int, mcb: seq<nat>,
                  ghost e0: seq<nat>, ghost b0: seq<bool>, ghost hint0: int)
    returns (found: nat, next': bool, hint': int, mcb': seq<nat>)
    requires vcb.Valid() && 0 < remaining <= vcb.precharged && remaining <= count && (hint == 0 || hint >= 2) && hint0 >= 2
    requires Taken(vcb.fat.bits, e0, vcb.fat.entries, mcb) && (next ==> vcb.fat.bits.Fat32?)
    requires OneWindowFat32(vcb) ==> OnCourse(b0, hint0, count, vcb.bitmap[..], remaining, hint, next)
    modifies vcb`clusterHint, vcb`used, vcb`precharged, vcb.bitmap, vcb.windows, vcb.fat, vcb.fat.units
    ensures vcb.Valid() && (hint' == 0 || hint' >= 2) && (next' ==> vcb.fat.bits.Fat32?)
    ensures found <= remaining && vcb.precharged == old(vcb.precharged) - found
    ensures Taken(vcb.fat.bits, e0, vcb.fat.entries, mcb') && |mcb'| == |mcb| + found
    ensures OneWindowFat32(vcb) ==> OnCourse(b0, hint0, count, vcb.bitmap[..], remaining - found, hint', next')
    ensures found == 0 && !next ==> !old(HasFree(vcb)) && (vcb.windows.Length == 1 ==> vcb.precharged == 0)
    ensures found == 0 && next ==> next'
  {
    var index;
    found, index, next', hint' := ChooseRun(vcb, remaining, next, hint);
    mcb' := mcb;
    if found == 0 {
      if !next {
        NothingFound(vcb.fat.bits, vcb.fat.numberOfClusters, vcb.Ledger(), remaining, hint, index, next', hint');
      }
    } else {
      if OneWindowFat32(vcb) {
        PassKeepsCourse(b0, hint0, count, vcb.bitmap[..], remaining, hint, found, index, next', hint');
      }
      mcb' := LinkRun(vcb, index, found, e0, mcb);
    }
  }

  /**
    The fragmented path of FatAllocateDiskSpace, for clusters already charged to the
    volume count.  The caller holds the bitmap exclusively, so what other threads
    did before is arbitrary as long as every view agrees.
   */
  method AllocateFragmented(vcb: Vcb, count: nat, hint0: int) returns (bugCheck: bool, mcb: seq<nat>)
    requires vcb.Valid() && 0 < count <= vcb.precharged && hint0 >= 2
    modifies vcb, vcb.bitmap, vcb.windows, vcb.fat, vcb.fat.units
    ensures bugCheck <==> OneWindowFat32(vcb) && StopsAtTail(old(vcb.bitmap[..]), hint0, count)
    ensures !bugCheck ==>
      && vcb.Valid() && (vcb.bitmap == old(vcb.bitmap) || fresh(vcb.bitmap))
      && vcb.precharged == old(vcb.precharged) - count && vcb.numberOfFreeClusters == old(vcb.numberOfFreeClusters)
      && |mcb| == count && Taken(vcb.fat.bits, old(vcb.fat.entries), vcb.fat.entries, mcb)
  {
    hide *;
    ghost var e0, b0 := vcb.fat.entries, vcb.bitmap[..];
    ReadyToTake(vcb);
    CourseStarts(b0, hint0, count);
    var remaining: nat, next, hint := count, false, hint0;
    mcb, bugCheck := [], false;
    while remaining != 0
      invariant vcb.Valid() && (vcb.bitmap == old(vcb.bitmap) || fresh(vcb.bitmap))
      invariant remaining <= count && |mcb| == count - remaining && (hint == 0 || hint >= 2)
      invariant vcb.precharged == old(vcb.precharged) - |mcb| && vcb.numberOfFreeClusters == old(vcb.numberOfFreeClusters)
      invariant Taken(vcb.fat.bits, e0, vcb.fat.entries, mcb)
      invariant next ==> vcb.fat.bits.Fat32?
      invariant OneWindowFat32(vcb) ==> OnCourse(b0, hint0, count, vcb.bitmap[..], remaining, hint, next)
      decreases remaining, if !next && HasFree(vcb) then 0 else 1
    {
      var found;
      found, next, hint, mcb := TakePass(vcb, count, remaining, next, hint, mcb, e0, b0, hint0);
      remaining := remaining - found;
      if found == 0 {
        if vcb.windows.Length == 1 {
          CourseFails(vcb, b0, hint0, count, vcb.bitmap[..], remaining, hint);
          return true, mcb;
        }
        hint := SwitchOn(vcb, next, hint);
        next := false;
        assert !OneWindowFat32(vcb) by { SeveralWindows(vcb); }
      }
    }
    assert OneWindowFat32(vcb) ==> !StopsAtTail(b0, hint0, count) by { CourseEnds(b0, hint0, count, vcb.bitmap[..], hint, next); }
  }

  lemma SeveralWindows(vcb: Vcb)
    requires vcb.windows.Length > 1
    ensures !OneWindowFat32(vcb)
  {
  }

  lemma CourseStarts(b: seq<bool>, hint: int, count: nat)
    requires count > 0
    ensures OnCourse(b, hint, count, b, count, hint, false)
  {
    hide StopsAtTail;
  }

  /** A single window without another one to go on in. */
  lemma CourseFails(vcb: Vcb, b0: seq<bool>, hint0: int, count: nat, b: seq<bool>, remaining: nat, hint: int)
    requires vcb.fat.bits.Fat32? && vcb.windows.Length == 1 && remaining > 0
    requires OneWindowFat32(vcb) ==> OnCourse(b0, hint0, count, b, remaining, hint, true)
    ensures OneWindowFat32(vcb) && StopsAtTail(b0, hint0, count)
  {
    hide StopsAtTail;
  }

  lemma CourseEnds(b0: seq<bool>, hint0: int, count: nat, b: seq<bool>, hint: int, next: bool)
    ensures OnCourse(b0, hint0, count, b, 0, hint, next) ==> !StopsAtTail(b0, hint0, count)
  {
    hide StopsAtTail;
  }

  datatype AllocationResult = Nothing | DiskFull | Stopped | Allocated(byteCount: nat, mcb: seq<nat>)

  /** Whether a caller's hint names a cluster of the volume. */
  predicate Hinted(vcb: Vcb, hint: nat) {
    hint != 0 && hint < vcb.fat.numberOfClusters + 2
  }

  /** The hint of a search in a volume with one window: the caller's, or the volume's, or the first cluster. */
  function SingleWindowHint(vcb: Vcb, clusterHint: int, hint: nat): int {
    if Hinted(vcb, hint) then hint else if clusterHint == -1 then 2 else clusterHint
  }

  /** The window-relative hint of a search; a caller's hint outside the current window changes the window. */
  method PickHint(vcb: Vcb, hint: nat) returns (relative: int)
    requires vcb.Valid() && hint != 1
    modifies vcb`bitmap, vcb`currentWindow, vcb`clusterHint, vcb`numberOfFreeClusters, vcb.windows
    ensures vcb.Valid() && (vcb.bitmap == old(vcb.bitmap) || fresh(vcb.bitmap))
    ensures vcb.numberOfFreeClusters == old(vcb.numberOfFreeClusters)
    ensures 2 <= relative < vcb.bitmap.Length + 2
    ensures Hinted(vcb, hint) ==> relative - 2 + vcb.windows[vcb.currentWindow].firstCluster == hint
    ensures vcb.windows.Length == 1 || !Hinted(vcb, hint) ==>
      && vcb.bitmap == old(vcb.bitmap) && vcb.bitmap[..] == old(vcb.bitmap[..]) && vcb.currentWindow == old(vcb.currentWindow)
      && relative == SingleWindowHint(vcb, old(vcb.clusterHint), hint)
    ensures forall i :: 0 <= i < vcb.windows.Length ==> vcb.windows[i] == old(vcb.windows[i])
  {
    ghost var ws := vcb.windows[..];
    PartitionApart(vcb.fat.bits, vcb.fat.numberOfClusters, ws, vcb.currentWindow);
    if Hinted(vcb, hint) {
      if vcb.windows.Length > 1 {
        if hint < vcb.windows[vcb.currentWindow].firstCluster || hint > vcb.windows[vcb.currentWindow].lastCluster {
          var bucket := WindowOfCluster(hint);
          WindowHolds(vcb.fat.bits, vcb.fat.numberOfClusters, hint, bucket);
          assert ws[bucket].firstCluster <= hint <= ws[bucket].lastCluster;
          if bucket != vcb.currentWindow {
            Switch(vcb, bucket);
          }
        }
        relative := hint - vcb.windows[vcb.currentWindow].firstCluster + 2;
        assert vcb.windows[..] == ws;
        assert vcb.windows[vcb.currentWindow] == ws[vcb.currentWindow];
      } else {
        relative := hint;
        assert ws[0].firstCluster == 2 && ws[0].lastCluster == vcb.fat.numberOfClusters + 1;
      }
    } else {
      relative := if vcb.clusterHint == -1 then 2 else vcb.clusterHint;
    }
  }

  /** FatFindFreeClusterRun: a single cluster is first looked for at the hint itself. */
  method FindFreeClusterRun(bitmap: array<bool>, count: nat, relative: int) returns (start: int)
    requires count > 0 && 2 <= relative < bitmap.Length + 2
    ensures start == 1 || (start >= 2 && NearestRun(bitmap[..], relative - 2, count, start - 2))
    ensures start == 1 <==> forall k :: !ClearRun(bitmap[..], k, count)
  {
    if count == 1 && !bitmap[relative - 2] {
      assert ClearRun(bitmap[..], relative - 2, 1);
      return relative;
    }
    var i := FindClearBits(bitmap, count, relative - 2);
    start := i + 2;
  }

  /**
    Whether FatAllocateDiskSpace stops the system: on a FAT32 volume with one window,
    when the run asked for cannot be had at once and the search runs into the end of
    the bitmap with part of the request outstanding.
   */
  ghost predicate Stops(vcb: Vcb, hint: nat, count: nat)
    reads vcb, vcb.bitmap
  {
    StopsWith(vcb, vcb.bitmap[..], SingleWindowHint(vcb, vcb.clusterHint, hint), hint, count)
  }

  /** The same, for given bits and a given hint in the window. */
  ghost predicate StopsWith(vcb: Vcb, b: seq<bool>, relative: int, hint: nat, count: nat) {
    && OneWindowFat32(vcb)
    && (Hinted(vcb, hint) || forall k :: !ClearRun(b, k, count))
    && StopsAtTail(b, relative, count)
  }

  /** A volume with three free clusters, and no other request under way: the request for three clusters is not refused, and stops the system. */
  lemma StopsVolume(vcb: Vcb)
    requires vcb.Valid() && OneWindowFat32(vcb) && vcb.precharged == 0
    requires vcb.bitmap[..] == [false, true, false, false] && vcb.clusterHint == 2
    ensures vcb.numberOfFreeClusters == 3 && Stops(vcb, 0, 3)
  {
    StopsWitness();
    var b := vcb.Ledger();
    FreeCountsAddUp(vcb.fat.bits, vcb.fat.numberOfClusters, b);
    CurrentWindowGood(vcb.fat.bits, vcb.fat.numberOfClusters, b);
    assert TotalFree(b.windows) == TotalFree(b.windows[..0]) + b.windows[0].clustersFree;
    hide StopsAtTail;
    hide ClearRun;
  }

  /** A run at the hint rules out that the search stops. */
  lemma RunAtHint(b: seq<bool>, hint: int, count: nat)
    requires hint >= 2 && count > 0 && ClearRun(b, hint - 2, count)
    ensures !StopsAtTail(b, hint, count)
  {
    HintPass(b, hint, count, count);
  }

  /** The clusters of a run lie in a window. */
  predicate Within(w: Window, cluster: nat, count: nat) {
    w.firstCluster <= cluster && cluster + count <= w.lastCluster + 1
  }

  /** The index of the volume's hint in the bitmap of the current window. */
  function HintIndex(clusterHint: int): int {
    if clusterHint == -1 then 0 else clusterHint - 2
  }

  /**
    Where the clusters of a request are taken.  One that names a place gets them there if
    they are free and in one window; any other gets the run next to the volume's hint if
    the current window has a run that is long enough.
   */
  ghost predicate InOneRun(s: Books, clusterHint: int, hinted: bool, hint: nat, count: nat, mcb: seq<nat>) {
    if hinted then
      (exists i :: 0 <= i < |s.windows| && Within(s.windows[i], hint, count)) && ClearRun(s.used, hint, count) ==>
        mcb == Run(hint, count)
    else
      s.current < |s.windows| && forall k: nat :: NearestRun(s.bitmap, HintIndex(clusterHint), count, k) ==>
        mcb == Run(s.windows[s.current].firstCluster + k, count)
  }

  /** Takes clusters that have been charged for: one run if the first search finds it, else fragments. */
  method TakeCharged(vcb: Vcb, hint: nat, count: nat) returns (stopped: bool, mcb: seq<nat>)
    requires vcb.Valid() && hint != 1 && 0 < count <= vcb.precharged
    modifies vcb, vcb.bitmap, vcb.windows, vcb.fat, vcb.fat.units
    ensures stopped == old(Stops(vcb, hint, count))
    ensures !stopped ==>
      && vcb.Valid() && (vcb.bitmap == old(vcb.bitmap) || fresh(vcb.bitmap))
      && vcb.precharged == old(vcb.precharged) - count && vcb.numberOfFreeClusters == old(vcb.numberOfFreeClusters)
      && |mcb| == count && Taken(vcb.fat.bits, old(vcb.fat.entries), vcb.fat.entries, mcb)
      && InOneRun(old(vcb.Ledger()), old(vcb.clusterHint), Hinted(vcb, hint), hint, count, mcb)
  {
    hide *;
    ReadyToTake(vcb);
    StopsIs(vcb, hint, count);
    ghost var s, clusterHint, hinted := vcb.Ledger(), vcb.clusterHint, Hinted(vcb, hint);
    LedgerSays(vcb);
    HintSays(vcb, clusterHint, hint);
    var relative := PickHint(vcb, hint);
    LedgerSays(vcb);
    ghost var b := vcb.bitmap[..];
    var start := FindFreeClusterRun(vcb.bitmap, count, relative);
    assert vcb.bitmap[..] == b;
    NearestIsClear(b, relative - 2, count, start - 2);
    if start != 1 && (!Hinted(vcb, hint) || start == relative) {
      RunFound(vcb, b, relative, hint, count, start);
      stopped := false;
      OneRunFound(s, clusterHint, hinted, vcb.Ledger(), relative, hint, count, start);
      mcb := LinkRun(vcb, start - 2, count, vcb.fat.entries, []);
    } else {
      RunMissed(vcb, b, relative, hint, count, start);
      NoRunThere(vcb, s, clusterHint, hinted, relative, hint, count, start);
      stopped, mcb := AllocateFragmented(vcb, count, relative);
    }
  }

  lemma StopsIs(vcb: Vcb, hint: nat, count: nat)
    ensures Stops(vcb, hint, count) == StopsWith(vcb, vcb.bitmap[..], SingleWindowHint(vcb, vcb.clusterHint, hint), hint, count)
    ensures forall b, relative :: StopsWith(vcb, b, relative, hint, count) ==> vcb.windows.Length == 1
    ensures Stops(vcb, hint, count) ==> OneWindowFat32(vcb)
  {
    hide StopsAtTail;
  }

  lemma RunFound(vcb: Vcb, b: seq<bool>, relative: int, hint: nat, count: nat, start: int)
    requires start >= 2 && relative >= 2 && count > 0 && ClearRun(b, start - 2, count) && (!Hinted(vcb, hint) || start == relative)
    ensures !StopsWith(vcb, b, relative, hint, count)
  {
    if start == relative {
      RunAtHint(b, relative, count);
    }
  }

  lemma LedgerSays(vcb: Vcb)
    requires vcb.Valid()
    ensures var s := vcb.Ledger();
      && s.used == vcb.used && s.windows == vcb.windows[..] && s.current == vcb.currentWindow < |s.windows| && s.bitmap == vcb.bitmap[..]
      && InOrder(vcb.fat.bits, vcb.fat.numberOfClusters, s)
  {
    hide InOrder;
    hide UsedBits;
    CurrentWindowExists(vcb);
  }

  lemma CurrentWindowExists(vcb: Vcb)
    requires vcb.Valid()
    ensures vcb.currentWindow < vcb.windows.Length
  {
  }

  lemma HintSays(vcb: Vcb, clusterHint: int, hint: nat)
    ensures !Hinted(vcb, hint) ==> SingleWindowHint(vcb, clusterHint, hint) - 2 == HintIndex(clusterHint)
  {
  }

  lemma NearestIsClear(b: seq<bool>, hint: int, count: nat, index: int)
    ensures NearestRun(b, hint, count, index) ==> ClearRun(b, index, count)
    ensures ClearRun(b, hint, count) && NearestRun(b, hint, count, index) ==> index == hint
  {
    hide ClearRun;
  }

  lemma NearestIsOne(b: seq<bool>, hint: int, count: nat, i: int, k: int)
    requires NearestRun(b, hint, count, i) && NearestRun(b, hint, count, k)
    ensures i == k
  {
    hide ClearRun;
  }

  /** The run that has been found is where the request is to get it; s is what the books were before the window was picked. */
  lemma OneRunFound(s: Books, clusterHint: int, hinted: bool, s': Books, relative: int, hint: nat, count: nat, start: int)
    requires start >= 2 && NearestRun(s'.bitmap, relative - 2, count, start - 2) && s'.current < |s'.windows| && s'.windows == s.windows
    requires hinted ==> start == relative && relative - 2 + s'.windows[s'.current].firstCluster == hint
    requires !hinted ==>
      && s'.bitmap == s.bitmap && s'.current == s.current
      && relative - 2 == HintIndex(clusterHint)
    ensures InOneRun(s, clusterHint, hinted, hint, count, [] + Run(s'.windows[s'.current].firstCluster + (start - 2), count))
  {
    var mcb := Run(s'.windows[s'.current].firstCluster + (start - 2), count);
    assert [] + mcb == mcb;
    if !hinted {
      forall k: nat | NearestRun(s.bitmap, HintIndex(clusterHint), count, k) ensures k == start - 2 {
        NearestIsOne(s.bitmap, relative - 2, count, k, start - 2);
      }
    }
    hide NearestRun;
    hide ClearRun;
  }

  /** If the run has not been found there, there is none. */
  lemma NoRunThere(vcb: Vcb, s: Books, clusterHint: int, hinted: bool, relative: int, hint: nat, count: nat, start: int)
    requires vcb.Valid() && count > 0 && vcb.currentWindow < vcb.windows.Length && vcb.windows[..] == s.windows && vcb.used == s.used
    requires start == 1 <==> forall k :: !ClearRun(vcb.bitmap[..], k, count)
    requires start == 1 || (start >= 2 && NearestRun(vcb.bitmap[..], relative - 2, count, start - 2))
    requires start == 1 || (hinted && start != relative)
    requires hinted ==> 2 <= relative < vcb.bitmap.Length + 2 && relative - 2 + vcb.windows[vcb.currentWindow].firstCluster == hint
    requires !hinted ==> vcb.bitmap[..] == s.bitmap && s.current == vcb.currentWindow
    ensures forall mcb :: InOneRun(s, clusterHint, hinted, hint, count, mcb)
  {
    if hinted {
      NearestIsClear(vcb.bitmap[..], relative - 2, count, start - 2);
      assert !ClearRun(vcb.bitmap[..], relative - 2, count);
      forall i {:trigger Within(s.windows[i], hint, count)} | 0 <= i < |s.windows| && Within(s.windows[i], hint, count) ensures !ClearRun(s.used, hint, count) {
        RunOfWindow(vcb, i, relative - 2, hint, count);
      }
    } else {
      forall k: nat ensures !NearestRun(s.bitmap, HintIndex(clusterHint), count, k) {
        assert !ClearRun(s.bitmap, k, count);
      }
    }
    hide NearestRun;
    hide ClearRun;
  }

  lemma OneWindowHolds(bits: IndexBits, n: nat, ws: seq<Window>, i: nat, j: nat, c: nat)
    requires Partition(bits, n, ws) && i < |ws| && j < |ws|
    requires ws[i].firstCluster <= c <= ws[i].lastCluster && ws[j].firstCluster <= c <= ws[j].lastCluster
    ensures i == j
  {
    PartitionApart(bits, n, ws, i);
    hide Partition;
  }

  /** A clear run of clusters that lies in one window is a clear run of the bitmap while that window is the current one. */
  lemma RunOfWindow(vcb: Vcb, i: nat, index: int, cluster: nat, count: nat)
    requires vcb.Valid() && count > 0 && vcb.currentWindow < vcb.windows.Length && i < vcb.windows.Length && Within(vcb.windows[i], cluster, count)
    requires 0 <= index < vcb.bitmap.Length && index + vcb.windows[vcb.currentWindow].firstCluster == cluster
    ensures ClearRun(vcb.used, cluster, count) ==> ClearRun(vcb.bitmap[..], index, count)
  {
    var s := vcb.Ledger();
    var v := s.windows[s.current];
    assert InOrder(vcb.fat.bits, vcb.fat.numberOfClusters, s);
    OneWindowHolds(vcb.fat.bits, vcb.fat.numberOfClusters, s.windows, i, s.current, cluster);
    if ClearRun(vcb.used, cluster, count) {
      forall k | index <= k < index + count ensures !vcb.bitmap[..][k] {
        assert s.bitmap[k] == s.used[v.firstCluster + k];
      }
    }
  }

  lemma RunMissed(vcb: Vcb, b: seq<bool>, relative: int, hint: nat, count: nat, start: int)
    requires start != 1 ==> Hinted(vcb, hint)
    requires start == 1 ==> forall k :: !ClearRun(b, k, count)
    ensures StopsWith(vcb, b, relative, hint, count) <==> OneWindowFat32(vcb) && StopsAtTail(b, relative, count)
  {
  }

  /**
    FatAllocateDiskSpace: charges the volume for the clusters, then takes one run at
    the hint if there is one, and otherwise whatever runs make up the request.
   */
  method AllocateDiskSpace(vcb: Vcb, hint: nat, byteCount: nat) returns (r: AllocationResult)
    requires vcb.Valid() && hint != 1 && byteCount < 0x1_0000_0000 && DividesFourGigabytes(vcb.bytesPerCluster)
    modifies vcb, vcb.bitmap, vcb.windows, vcb.fat, vcb.fat.units
    ensures r.Nothing? <==> byteCount == 0
    ensures r.DiskFull? <==> byteCount > 0 && ClustersFor(vcb.bytesPerCluster, byteCount) > old(vcb.numberOfFreeClusters)
    ensures r.Stopped? <==> !r.Nothing? && !r.DiskFull? && old(Stops(vcb, hint, ClustersFor(vcb.bytesPerCluster, byteCount)))
    ensures r.Stopped? ==> OneWindowFat32(vcb)
    ensures r.Nothing? || r.DiskFull? ==> vcb.Valid() && vcb.Ledger() == old(vcb.Ledger()) && vcb.fat.entries == old(vcb.fat.entries)
    ensures !r.Stopped? ==> vcb.Valid() && (vcb.bitmap == old(vcb.bitmap) || fresh(vcb.bitmap)) && vcb.precharged == old(vcb.precharged)
    ensures r.Nothing? || r.DiskFull? ==> vcb.numberOfFreeClusters == old(vcb.numberOfFreeClusters)
    ensures r.Allocated? ==>
      && |r.mcb| == ClustersFor(vcb.bytesPerCluster, byteCount) && r.byteCount == AllocatedBytes(vcb.bytesPerCluster, |r.mcb|)
      && Taken(vcb.fat.bits, old(vcb.fat.entries), vcb.fat.entries, r.mcb)
      && vcb.numberOfFreeClusters == old(vcb.numberOfFreeClusters) - |r.mcb|
      && InOneRun(old(vcb.Ledger()), old(vcb.clusterHint), Hinted(vcb, hint), hint, |r.mcb|, r.mcb)
  {
    hide *;
    if byteCount == 0 {
      return Nothing;
    }
    var rounded, count := RoundUp(vcb.bytesPerCluster, byteCount);
    if count > vcb.numberOfFreeClusters {
      return DiskFull;
    }
    ghost var s, b, clusterHint := vcb.Ledger(), vcb.bitmap[..], vcb.clusterHint;
    ToCharge(vcb);
    StopsIs(vcb, hint, count);
    vcb.numberOfFreeClusters := vcb.numberOfFreeClusters - count;
    vcb.precharged := vcb.precharged + count;
    Charged(vcb, s, count);
    StopsIs(vcb, hint, count);
    var stopped, mcb := TakeCharged(vcb, hint, count);
    r := if stopped then Stopped else Allocated(rounded, mcb);
  }

  lemma ToCharge(vcb: Vcb)
    requires vcb.Valid()
    ensures vcb.fat.Valid() && vcb.used == UsedBits(vcb.fat.entries) && InOrder(vcb.fat.bits, vcb.fat.numberOfClusters, vcb.Ledger())
    ensures vcb.clusterHint == -1 || 2 <= vcb.clusterHint < vcb.bitmap.Length + 2
    ensures vcb.Ledger() == Books(vcb.used, vcb.windows[..], vcb.currentWindow, vcb.bitmap[..], vcb.numberOfFreeClusters, vcb.precharged)
  {
    hide InOrder;
    hide UsedBits;
  }

  /** Charging clusters keeps the volume in order, and does not change where a request gets them. */
  lemma Charged(vcb: Vcb, s: Books, count: nat)
    requires vcb.fat.Valid() && vcb.used == UsedBits(vcb.fat.entries) && InOrder(vcb.fat.bits, vcb.fat.numberOfClusters, s) && count <= s.free
    requires vcb.clusterHint == -1 || 2 <= vcb.clusterHint < vcb.bitmap.Length + 2
    requires s.(free := s.free - count, precharged := s.precharged + count)
      == Books(vcb.used, vcb.windows[..], vcb.currentWindow, vcb.bitmap[..], vcb.numberOfFreeClusters, vcb.precharged)
    ensures vcb.Valid()
    ensures forall clusterHint, hinted, hint, n, mcb :: InOneRun(vcb.Ledger(), clusterHint, hinted, hint, n, mcb) ==> InOneRun(s, clusterHint, hinted, hint, n, mcb)
  {
    hide UsedBits;
    hide NearestRun;
    hide ClearRun;
    ChargeKeepsOrder(vcb.fat.bits, vcb.fat.numberOfClusters, s, count);
    hide InOrder;
  }
}
