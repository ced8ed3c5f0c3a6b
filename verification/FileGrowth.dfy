/**
  Growing and cutting files: FatSplitAllocation, FatMergeAllocation,
  FatAddFileAllocation and FatTruncateFileAllocation.
 */
module FileGrowth {
  import opened Bits
  import opened FatEntries
  import opened FatTable
  import opened Mcb
  import opened Windows
  import opened Books
  import opened Volume
  import opened Allocation
  import opened Deallocation
  import opened Sizes
  import opened FileMap
  import opened FileAllocation

  /** Writing an entry that is not AVAILABLE over one that is not leaves the same clusters in use. */
  lemma SameInUse(e: seq<nat>, c: nat, v: nat)
    requires c < |e| && e[c] != FAT_CLUSTER_AVAILABLE && v != FAT_CLUSTER_AVAILABLE
    ensures UsedBits(e[c := v]) == UsedBits(e)
  {
  }

  /** FatSplitAllocation: the runs from a cluster on are moved to another map, and the cluster before is marked last. */
  method SplitAllocation(vcb: Vcb, mcb: seq<nat>, splitAt: nat) returns (kept: seq<nat>, remaining: seq<nat>)
    requires vcb.Valid() && 0 < splitAt < |mcb| && InHeap(mcb, vcb.fat.numberOfClusters)
    requires vcb.fat.entries[mcb[splitAt - 1]] != FAT_CLUSTER_AVAILABLE
    modifies vcb.fat, vcb.fat.units
    ensures kept == mcb[..splitAt] && remaining == mcb[splitAt..]
    ensures vcb.Valid() && vcb.fat.entries == old(vcb.fat.entries)[mcb[splitAt - 1] := LastMark(vcb.fat.bits)]
  {
    remaining := [];
    var source := splitAt;
    while source < |mcb| // what is moved leaves a hole behind that grows up to here
      invariant splitAt <= source <= |mcb| && remaining == mcb[splitAt..source]
    {
      var end := RunEnd(mcb, source);
      remaining := remaining + mcb[source..end];
      source := end;
    }
    kept := mcb[..splitAt];
    LinkReadableIff(vcb.fat.bits, 1);
    SameInUse(vcb.fat.entries, mcb[splitAt - 1], LastMark(vcb.fat.bits));
    var ok := vcb.fat.SetFatEntry(mcb[splitAt - 1], FAT_CLUSTER_LAST);
  }

  /** FatMergeAllocation: the runs of a second map are appended, and the last cluster before them is linked to them. */
  method MergeAllocation(vcb: Vcb, mcb: seq<nat>, second: seq<nat>) returns (merged: seq<nat>)
    requires vcb.Valid() && mcb != [] && second != []
    requires InHeap(mcb, vcb.fat.numberOfClusters) && InHeap(second, vcb.fat.numberOfClusters)
    requires vcb.fat.entries[mcb[|mcb| - 1]] != FAT_CLUSTER_AVAILABLE
    modifies vcb.fat, vcb.fat.units
    ensures merged == mcb + second
    ensures vcb.Valid() && vcb.fat.entries == old(vcb.fat.entries)[mcb[|mcb| - 1] := Truncated(vcb.fat.bits, second[0])]
  {
    merged := mcb;
    var source := 0;
    while source < |second|
      invariant 0 <= source <= |second| && merged == mcb + second[..source]
    {
      var end := RunEnd(second, source);
      assert second[..end] == second[..source] + second[source..end];
      merged := merged + second[source..end];
      source := end;
    }
    assert second[..|second|] == second;
    SameInUse(vcb.fat.entries, mcb[|mcb| - 1], Truncated(vcb.fat.bits, second[0]));
    var ok := vcb.fat.SetFatEntry(mcb[|mcb| - 1], second[0]);
  }

  /** Splitting an allocation and merging the parts again restores the map and every entry of the FAT. */
  method SplitThenMerge(vcb: Vcb, mcb: seq<nat>, splitAt: nat) returns (merged: seq<nat>)
    requires vcb.Valid() && IsChain(vcb.fat.bits, vcb.fat.entries, mcb) && 0 < splitAt < |mcb|
    modifies vcb.fat, vcb.fat.units
    ensures vcb.Valid() && merged == mcb && vcb.fat.entries == old(vcb.fat.entries)
  {
    hide *;
    ghost var bits, e := vcb.fat.bits, vcb.fat.entries;
    LinkToBehind(bits, e, mcb, splitAt);
    HeapOf(vcb);
    var kept, remaining := SplitAllocation(vcb, mcb, splitAt);
    merged := MergeAllocation(vcb, kept, remaining);
    assert vcb.fat.entries == e;
  }

  lemma HeapOf(vcb: Vcb)
    requires vcb.Valid()
    ensures |vcb.fat.entries| == vcb.fat.numberOfClusters + 2
  {
    hide InOrder;
    hide UsedBits;
  }

  /** The link of a chain that is cut and restored. */
  lemma LinkToBehind(bits: IndexBits, e: seq<nat>, mcb: seq<nat>, splitAt: nat)
    requires IsChain(bits, e, mcb) && 0 < splitAt < |mcb|
    ensures InHeap(mcb, |e| - 2) && InHeap(mcb[..splitAt], |e| - 2) && InHeap(mcb[splitAt..], |e| - 2)
    ensures var last := mcb[splitAt - 1];
      && last < |e| && e[last] != FAT_CLUSTER_AVAILABLE && e[last] == Truncated(bits, mcb[splitAt]) && LastMark(bits) != FAT_CLUSTER_AVAILABLE
  {
    ChainInUse(bits, e, mcb, splitAt - 1);
    assert e[mcb[splitAt - 1]] == mcb[splitAt];
    hide InterpretClusterType;
  }

  /** The entries after clusters that were free are linked, in order, behind a chain, which may be empty. */
  ghost predicate Grew(bits: IndexBits, e: seq<nat>, e': seq<nat>, chain: seq<nat>, added: seq<nat>) {
    && added != []
    && if chain == [] then Taken(bits, e, e', added)
       else exists e1 :: Taken(bits, e, e1, added) && chain[|chain| - 1] < |e1| && e' == e1[chain[|chain| - 1] := Truncated(bits, added[0])]
  }

  /** Taking free clusters leaves a chain alone. */
  lemma TakenKeeps(bits: IndexBits, e: seq<nat>, e1: seq<nat>, added: seq<nat>)
    requires Taken(bits, e, e1, added) && forall i :: 0 <= i < |e| ==> e[i] < EntryLimit(bits)
    ensures KeptBut(e, e1, []) && forall i :: 0 <= i < |e1| ==> e1[i] < EntryLimit(bits)
    ensures forall ds :: IsChain(bits, e, ds) ==> IsChain(bits, e1, ds) && forall i, j {:trigger ds[i], added[j]} :: 0 <= i < |ds| && 0 <= j < |added| ==> ds[i] != added[j]
  {
    LinkedBounded(bits, e, e1, added);
    forall c | 0 <= c < |e| && e[c] != FAT_CLUSTER_AVAILABLE ensures e1[c] == e[c] {
      assert c !in added;
    }
    forall ds | IsChain(bits, e, ds)
      ensures IsChain(bits, e1, ds) && forall i, j {:trigger ds[i], added[j]} :: 0 <= i < |ds| && 0 <= j < |added| ==> ds[i] != added[j]
    {
      ChainKept(bits, e, e1, [], ds);
      forall i, j | 0 <= i < |ds| && 0 <= j < |added| ensures ds[i] != added[j] {
        ChainInUse(bits, e, ds, i);
      }
    }
  }

  /** A grown chain can be read back exactly when all its links can, and every other cluster in use keeps its entry. */
  lemma GrewIsChain(bits: IndexBits, e: seq<nat>, e': seq<nat>, chain: seq<nat>, added: seq<nat>)
    requires Grew(bits, e, e', chain, added) && (chain == [] || IsChain(bits, e, chain))
    requires 2 <= |e| <= EntryLimit(bits) && forall i :: 0 <= i < |e| ==> e[i] < EntryLimit(bits)
    ensures IsChain(bits, e', chain + added) <==> forall i :: 0 < i < |chain + added| ==> (chain + added)[i] < ReservedBase(bits)
    ensures KeptBut(e, e', chain) && forall i :: 0 <= i < |e'| ==> e'[i] < EntryLimit(bits)
    ensures forall i :: 0 <= i < |added| ==> 2 <= added[i] < |e| && e[added[i]] == FAT_CLUSTER_AVAILABLE
  {
    if chain == [] {
      TakenKeeps(bits, e, e', added);
      LinkedIsChain(bits, e, e', added);
      assert chain + added == added;
    } else {
      var e1 :| Taken(bits, e, e1, added) && chain[|chain| - 1] < |e1| && e' == e1[chain[|chain| - 1] := Truncated(bits, added[0])];
      TakenKeeps(bits, e, e1, added);
      LinkedIsChain(bits, e, e1, added);
      JoinedReadable(bits, e1, e', chain, added);
      forall c | 0 <= c < |e| && c !in chain && e[c] != FAT_CLUSTER_AVAILABLE ensures e'[c] == e[c] {
        assert c != chain[|chain| - 1];
        assert e1[c] == e[c];
      }
    }
  }

  lemma JoinedReadable(bits: IndexBits, e1: seq<nat>, e': seq<nat>, chain: seq<nat>, added: seq<nat>)
    requires IsChain(bits, e1, chain) && added != [] && InHeap(added, |e1| - 2)
    requires 2 <= |e1| <= EntryLimit(bits) && forall i :: 0 <= i < |e1| ==> e1[i] < EntryLimit(bits)
    requires forall i, j {:trigger chain[i], added[j]} :: 0 <= i < |chain| && 0 <= j < |added| ==> chain[i] != added[j]
    requires e' == e1[chain[|chain| - 1] := Truncated(bits, added[0])]
    requires IsChain(bits, e1, added) <==> forall i :: 0 < i < |added| ==> added[i] < ReservedBase(bits)
    ensures IsChain(bits, e', chain + added) <==> forall i :: 0 < i < |chain + added| ==> (chain + added)[i] < ReservedBase(bits)
  {
    var cs := chain + added;
    if IsChain(bits, e', cs) {
      forall i | 0 < i < |cs| ensures cs[i] < ReservedBase(bits) {
        ChainReadable(bits, e', cs, i);
      }
    } else if forall i :: 0 < i < |cs| ==> cs[i] < ReservedBase(bits) {
      assert added[0] == cs[|chain|];
      forall i | 0 < i < |added| ensures added[i] < ReservedBase(bits) {
        assert added[i] == cs[|chain| + i];
      }
      JoinedParts(bits, e1, e', chain, added);
    }
  }

  /** In a volume of n clusters, free clusters are linked behind a chain, or make up a chain of their own. */
  ghost predicate Growing(bits: IndexBits, n: nat, e: seq<nat>, e': seq<nat>, chain: seq<nat>, added: seq<nat>) {
    && |e| == n + 2 && (forall i :: 0 <= i < |e| ==> e[i] < EntryLimit(bits))
    && (chain == [] || IsChain(bits, e, chain)) && Grew(bits, e, e', chain, added)
  }

  /** A volume keeps every chain readable, however its files grow, exactly when it has no cluster from the reserved base up. */
  lemma EveryGrowthReadable(bits: IndexBits, n: nat)
    requires n > 0 && n + 2 <= EntryLimit(bits)
    ensures (forall e, e', chain, added :: Growing(bits, n, e, e', chain, added) ==> IsChain(bits, e', chain + added)) <==> n + 2 <= ReservedBase(bits)
  {
    if n + 2 <= ReservedBase(bits) {
      forall e, e', chain, added | Growing(bits, n, e, e', chain, added) ensures IsChain(bits, e', chain + added) {
        GrowsReadable(bits, n, e, e', chain, added);
      }
    } else {
      var e, e', added := FreeHeap(n), HeapLinked(bits, n), Run(2, n);
      HeapGrows(bits, n);
      WholeHeapReadable(bits, e, e', n);
      assert [] + added == added;
    }
    hide Growing;
    hide IsChain;
  }

  lemma GrowsReadable(bits: IndexBits, n: nat, e: seq<nat>, e': seq<nat>, chain: seq<nat>, added: seq<nat>)
    requires n + 2 <= EntryLimit(bits) && n + 2 <= ReservedBase(bits) && Growing(bits, n, e, e', chain, added)
    ensures IsChain(bits, e', chain + added)
  {
    GrewIsChain(bits, e, e', chain, added);
    assert chain != [] ==> InHeap(chain, |e| - 2);
    hide IsChain;
    hide Grew;
  }

  /** A FAT without any chain: two entries that stand for no cluster, and n free clusters. */
  function FreeHeap(n: nat): seq<nat> {
    seq(n + 2, _ => FAT_CLUSTER_AVAILABLE)
  }

  /** The same FAT after all its clusters have been linked in order. */
  function HeapLinked(bits: IndexBits, n: nat): seq<nat> {
    seq(n + 2, (c: nat) => HeapEntry(bits, n, c))
  }

  function HeapEntry(bits: IndexBits, n: nat, c: nat): nat {
    if c < 2 then FAT_CLUSTER_AVAILABLE else if c < n + 1 then c + 1 else LastMark(bits)
  }

  lemma HeapGrows(bits: IndexBits, n: nat)
    requires n > 0 && n + 2 <= EntryLimit(bits)
    ensures Growing(bits, n, FreeHeap(n), HeapLinked(bits, n), [], Run(2, n))
    ensures Taken(bits, FreeHeap(n), HeapLinked(bits, n), Run(2, n))
  {
    var e, e', cs := FreeHeap(n), HeapLinked(bits, n), Run(2, n);
    forall c | 0 <= c < |e| ensures c in cs || e'[c] == e[c] {
      if c >= 2 {
        assert cs[c - 2] == c;
      }
    }
  }

  /** The chain of a whole heap, linked in order, can be read back exactly when no cluster lies from the reserved base up. */
  lemma WholeHeapReadable(bits: IndexBits, e: seq<nat>, e': seq<nat>, n: nat)
    requires n > 0 && n + 2 <= EntryLimit(bits) && |e| == n + 2 && forall i :: 0 <= i < |e| ==> e[i] < EntryLimit(bits)
    requires Taken(bits, e, e', Run(2, n))
    ensures IsChain(bits, e', Run(2, n)) <==> n + 2 <= ReservedBase(bits)
  {
    var cs := Run(2, n);
    LinkedIsChain(bits, e, e', cs);
    assert cs[n - 1] == n + 1;
    hide IsChain;
    hide LinkedAs;
  }

  /** In an empty volume with one window, a request for the whole heap gets a chain that the driver cannot read back if it has such clusters. */
  method AllocateWholeHeap(vcb: Vcb) returns (r: AllocationResult)
    requires vcb.Valid() && vcb.windows.Length == 1 && vcb.precharged == 0 && forall c :: 2 <= c < |vcb.fat.entries| ==> vcb.fat.entries[c] == FAT_CLUSTER_AVAILABLE
    requires DividesFourGigabytes(vcb.bytesPerCluster) && Span(vcb.bytesPerCluster, vcb.fat.numberOfClusters) < 0x1_0000_0000
    modifies vcb, vcb.bitmap, vcb.windows, vcb.fat, vcb.fat.units
    ensures r.Allocated? && r.mcb == Run(2, vcb.fat.numberOfClusters)
    ensures IsChain(vcb.fat.bits, vcb.fat.entries, r.mcb) <==> vcb.fat.numberOfClusters + 2 <= ReservedBase(vcb.fat.bits)
  {
    hide *;
    ghost var e, s, clusterHint, hinted := vcb.fat.entries, vcb.Ledger(), vcb.clusterHint, Hinted(vcb, 0);
    AllFree(vcb);
    WholeHeap(vcb);
    r := AllocateDiskSpace(vcb, 0, vcb.bytesPerCluster * vcb.fat.numberOfClusters);
    OnlyRun(s, clusterHint, hinted, r.mcb);
    WholeHeapReadable(vcb.fat.bits, e, vcb.fat.entries, vcb.fat.numberOfClusters);
  }

  lemma AllFree(vcb: Vcb)
    requires vcb.Valid() && vcb.windows.Length == 1 && vcb.precharged == 0 && forall c :: 2 <= c < |vcb.fat.entries| ==> vcb.fat.entries[c] == FAT_CLUSTER_AVAILABLE
    requires DividesFourGigabytes(vcb.bytesPerCluster) && Span(vcb.bytesPerCluster, vcb.fat.numberOfClusters) < 0x1_0000_0000
    ensures var n, b, e := vcb.fat.numberOfClusters, vcb.bitmap[..], vcb.fat.entries;
      && n > 0 && vcb.numberOfFreeClusters == n == |b| && ClearRun(b, 0, n) && !Stops(vcb, 0, n)
      && 0 < vcb.bytesPerCluster * n < 0x1_0000_0000 && vcb.bytesPerCluster > 0 && ClustersFor(vcb.bytesPerCluster, vcb.bytesPerCluster * n) == n
      && |e| == n + 2 <= EntryLimit(vcb.fat.bits) && forall i :: 0 <= i < |e| ==> e[i] < EntryLimit(vcb.fat.bits)
  {
    var n, ledger := vcb.fat.numberOfClusters, vcb.Ledger();
    ClearInUniform(ledger.used, 2, n + 2);
    PartitionApart(vcb.fat.bits, n, ledger.windows, ledger.current);
    assert ledger.windows[0].firstCluster == 2 && ledger.windows[0].lastCluster == n + 1;
    assert ClearRun(vcb.bitmap[..], 0, n);
    SpanIs(vcb.bytesPerCluster, n);
    RoundedUpIs(vcb.bytesPerCluster, vcb.bytesPerCluster * n);
    SpanMonotone(vcb.bytesPerCluster, ClustersFor(vcb.bytesPerCluster, vcb.bytesPerCluster * n), n);
    SpanMonotone(vcb.bytesPerCluster, ClustersFor(vcb.bytesPerCluster, vcb.bytesPerCluster * n) - 1, n);
    vcb.fat.EntriesBounded();
  }

  lemma WholeHeap(vcb: Vcb)
    requires vcb.Valid() && vcb.windows.Length == 1
    ensures var s := vcb.Ledger(); s.bitmap == vcb.bitmap[..] && s.current < |s.windows| && s.windows[s.current].firstCluster == 2 && !Hinted(vcb, 0)
    ensures vcb.clusterHint == -1 || 2 <= vcb.clusterHint < vcb.bitmap.Length + 2
  {
    var s := vcb.Ledger();
    PartitionApart(vcb.fat.bits, vcb.fat.numberOfClusters, s.windows, s.current);
    assert s.windows[0].firstCluster == 2;
  }

  /** A run as long as the bitmap is the whole of it. */
  lemma OnlyRun(s: Books, clusterHint: int, hinted: bool, mcb: seq<nat>)
    requires ClearRun(s.bitmap, 0, |s.bitmap|) && |s.bitmap| > 0 && !hinted && s.current < |s.windows| && s.windows[s.current].firstCluster == 2
    requires InOneRun(s, clusterHint, hinted, 0, |s.bitmap|, mcb) && (clusterHint == -1 || clusterHint >= 2)
    ensures mcb == Run(2, |s.bitmap|)
  {
    assert NearestRun(s.bitmap, HintIndex(clusterHint), |s.bitmap|, 0);
  }

  /** What becomes of a request to grow: it is met already, it is met now, the size cannot be read, the disk is full, or the system stops. */
  datatype Growth = Enough | Grown | Unreadable | Full | Halted

  /** The chain of a file, which is empty for a file without a first cluster. */
  ghost predicate ChainOf(fcb: Fcb, chain: seq<nat>)
    reads fcb, fcb.vcb, fcb.vcb.fat
  {
    ChainAt(fcb, fcb.vcb.fat.entries, fcb.firstCluster, chain)
  }

  /** The chain of a file, given the entries and the first cluster. */
  ghost predicate ChainAt(fcb: Fcb, e: seq<nat>, first: nat, chain: seq<nat>) {
    if first == 0 then chain == [] else ReadableFrom(fcb.vcb.fat.bits, e, fcb.vcb.bytesPerCluster, first, chain)
  }

  /** What the outcome of a request depends on: the bits of the current window, where the next search starts, and the free count. */
  datatype Space = Space(bitmap: seq<bool>, clusterHint: int, free: nat)

  ghost function SpaceOf(vcb: Vcb): Space
    reads vcb, vcb.bitmap
  {
    Space(vcb.bitmap[..], vcb.clusterHint, vcb.numberOfFreeClusters)
  }

  /** Where the driver looks first for clusters behind a chain: anywhere for a file without allocation, else behind its last cluster. */
  function GrowthHint(chain: seq<nat>): nat {
    if chain == [] then 0 else chain[|chain| - 1] + 1
  }

  /**
    What a request comes to, for a file whose chain can be read: nothing to do if the
    chain holds the size; refused if the volume has too few free clusters; and the
    system stops exactly when the search for the missing clusters does.
   */
  ghost function Granted(vcb: Vcb, space: Space, chain: seq<nat>, desired: nat): Growth
    requires vcb.bytesPerCluster > 0
  {
    var held := Span(vcb.bytesPerCluster, |chain|);
    if desired <= held then Enough
    else
      var count := ClustersFor(vcb.bytesPerCluster, desired - held);
      var hint := GrowthHint(chain);
      if count > space.free then Full
      else if StopsWith(vcb, space.bitmap, SingleWindowHint(vcb, space.clusterHint, hint), hint, count) then Halted
      else Grown
  }

  /** The size of a file is not known yet, and cannot be: it has no readable chain, or one that is too short for its bytes. */
  ghost predicate SizeLost(fcb: Fcb)
    reads fcb, fcb.vcb, fcb.vcb.fat
  {
    && fcb.allocationSize == FCB_LOOKUP_ALLOCATIONSIZE_HINT
    && forall ds :: fcb.Readable(ds) ==> AllocatedBytes(fcb.vcb.bytesPerCluster, |ds|) < fcb.fileSize
  }

  /** Makes the size of a file known, if it can be read. */
  method EnsureSize(fcb: Fcb) returns (ok: bool)
    requires fcb.Ok()
    modifies fcb`mcb, fcb`allocationSize
    ensures fcb.Ok() && (fcb.allocationSize == FCB_LOOKUP_ALLOCATIONSIZE_HINT ==> old(fcb.allocationSize) == FCB_LOOKUP_ALLOCATIONSIZE_HINT)
    ensures ok <==> !old(SizeLost(fcb))
    ensures ok ==> ChainOf(fcb, fcb.mcb) && fcb.allocationSize == AllocatedBytes(fcb.vcb.bytesPerCluster, |fcb.mcb|)
  {
    ok := true;
    if fcb.allocationSize == FCB_LOOKUP_ALLOCATIONSIZE_HINT {
      ok := fcb.LookupFileAllocationSize();
    }
  }

  /** The cluster behind the last one that a map holds. */
  method HintBehind(vcb: Vcb, mcb: seq<nat>) returns (hint: nat)
    requires vcb.bytesPerCluster > 1 && mcb != [] && forall i :: 0 <= i < |mcb| ==> 2 <= mcb[i] < 0x1000_0000
    ensures hint == mcb[|mcb| - 1] + 1
  {
    var found, vbo, lbo, index := LookupLastMcbEntry(vcb, mcb);
    var last := mcb[|mcb| - 1];
    LboApart(vcb.fileAreaLbo, vcb.bytesPerCluster, last, 1);
    assert Span(vcb.bytesPerCluster, 1) == Span(vcb.bytesPerCluster, 0) + vcb.bytesPerCluster;
    hide LboFromIndex;
    IndexOfLbo(vcb.fileAreaLbo, vcb.bytesPerCluster, last + 1, 0);
    hint := IndexFromLbo(vcb.fileAreaLbo, vcb.bytesPerCluster, lbo + 1);
  }

  /** The size of a grown file, with the wrap to the maximal file. */
  lemma GrownSize(bytesPerCluster: nat, n: nat, desired: nat)
    requires DividesFourGigabytes(bytesPerCluster) && Span(bytesPerCluster, n) < desired < 0x1_0000_0000
    ensures var more := ClustersFor(bytesPerCluster, desired - Span(bytesPerCluster, n));
      && Span(bytesPerCluster, n + more) == Span(bytesPerCluster, n) + Span(bytesPerCluster, more)
      && more > 0 && Span(bytesPerCluster, n + more - 1) < desired <= Span(bytesPerCluster, n + more) <= 0x1_0000_0000
  {
    var need := desired - Span(bytesPerCluster, n);
    var more := ClustersFor(bytesPerCluster, need);
    RoundedUpIs(bytesPerCluster, need);
    SpanAdds(bytesPerCluster, n, more);
    SpanAdds(bytesPerCluster, n, more - 1);
    WrapsAtFourGigabytes(bytesPerCluster, n + more);
  }

  /** The size of a file whose chain is known. */
  ghost predicate Sized(fcb: Fcb, chain: seq<nat>)
    reads fcb, fcb.vcb, fcb.vcb.fat
  {
    fcb.mcb == chain && ChainOf(fcb, chain) && fcb.allocationSize == Span(fcb.vcb.bytesPerCluster, |chain|) < 0x1_0000_0000
  }

  /** The disk space that a file needs to grow: for an empty file at the volume's hint, else behind its last cluster. */
  method AllocateFor(fcb: Fcb, desired: nat, ghost chain: seq<nat>) returns (r: Growth, newAllocation: nat, newMcb: seq<nat>)
    requires fcb.Mounted() && fcb.MapOk() && fcb.vcb.Valid() && Sized(fcb, chain) && fcb.allocationSize < desired <= MAXULONG
    modifies fcb, fcb.vcb, fcb.vcb.bitmap, fcb.vcb.windows, fcb.vcb.fat, fcb.vcb.fat.units
    ensures r in {Grown, Full, Halted} && fcb.fileSize == old(fcb.fileSize) && fcb.allocationSize == old(fcb.allocationSize)
    ensures r == old(Granted(fcb.vcb, SpaceOf(fcb.vcb), chain, desired))
    ensures !r.Halted? ==> fcb.vcb.bitmap == old(fcb.vcb.bitmap) || fresh(fcb.vcb.bitmap)
    ensures r.Full? ==>
      && fcb.mcb == chain && fcb.firstCluster == old(fcb.firstCluster) && fcb.vcb.Valid() && fcb.vcb.fat.entries == old(fcb.vcb.fat.entries)
      && fcb.vcb.numberOfFreeClusters == old(fcb.vcb.numberOfFreeClusters)
    ensures r.Grown? ==>
      && fcb.vcb.Valid() && Taken(fcb.vcb.fat.bits, old(fcb.vcb.fat.entries), fcb.vcb.fat.entries, newMcb)
      && |newMcb| == ClustersFor(fcb.vcb.bytesPerCluster, desired - fcb.allocationSize) > 0
      && newAllocation == AllocatedBytes(fcb.vcb.bytesPerCluster, |newMcb|)
      && (if chain == [] then fcb.mcb == newMcb && fcb.firstCluster == newMcb[0] else fcb.mcb == chain && fcb.firstCluster == old(fcb.firstCluster))
      && fcb.vcb.numberOfFreeClusters == old(fcb.vcb.numberOfFreeClusters) - |newMcb|
  {
    hide *;
    var vcb := fcb.vcb;
    ReadyToAllocate(fcb, desired, chain);
    ghost var e := vcb.fat.entries;
    var hint := 0;
    if fcb.allocationSize != 0 {
      hint := HintBehind(vcb, fcb.mcb);
    }
    GrantedIs(vcb, chain, desired, hint);
    var a := AllocateDiskSpace(vcb, hint, desired - fcb.allocationSize);
    newAllocation, newMcb := 0, [];
    match a
    case Stopped => r := Halted;
    case Allocated(byteCount, mcb) =>
      r, newAllocation, newMcb := Grown, byteCount, mcb;
      TakenInHeap(vcb.fat.bits, e, vcb.fat.entries, newMcb);
      if fcb.allocationSize == 0 {
        fcb.mcb := newMcb;
        fcb.firstCluster := FirstClusterOf(vcb, newMcb);
      }
    case _ => r := Full;
  }

  lemma GrantedIs(vcb: Vcb, chain: seq<nat>, desired: nat, hint: nat)
    requires vcb.bytesPerCluster > 0 && Span(vcb.bytesPerCluster, |chain|) < desired
    requires hint == if chain == [] then 0 else chain[|chain| - 1] + 1
    ensures Granted(vcb, SpaceOf(vcb), chain, desired) ==
      var count := ClustersFor(vcb.bytesPerCluster, desired - Span(vcb.bytesPerCluster, |chain|));
      if count > vcb.numberOfFreeClusters then Full else if Stops(vcb, hint, count) then Halted else Grown
  {
    hide StopsWith;
    hide ClustersFor;
  }

  lemma ReadyToAllocate(fcb: Fcb, desired: nat, chain: seq<nat>)
    requires fcb.Mounted() && fcb.MapOk() && Sized(fcb, chain) && fcb.allocationSize < desired <= MAXULONG
    ensures fcb.mcb == chain && (fcb.allocationSize == 0 <==> chain == [])
    ensures fcb.allocationSize == Span(fcb.vcb.bytesPerCluster, |chain|) >= 0
    ensures fcb.vcb.bytesPerCluster > 1 && DividesFourGigabytes(fcb.vcb.bytesPerCluster) && MAXULONG < 0x1_0000_0000
    ensures forall i :: 0 <= i < |chain| ==> 2 <= chain[i] < 0x1000_0000
    ensures ClustersFor(fcb.vcb.bytesPerCluster, desired - fcb.allocationSize) > 0
  {
    RoundedUpIs(fcb.vcb.bytesPerCluster, desired - fcb.allocationSize);
    SpanMonotone(fcb.vcb.bytesPerCluster, 0, |chain|);
    hide IsChain;
    hide CutAtRun;
    hide ClustersFor;
    hide RoundedUp;
    hide DividesFourGigabytes;
  }


  lemma TakenInHeap(bits: IndexBits, e: seq<nat>, e1: seq<nat>, cs: seq<nat>)
    requires Taken(bits, e, e1, cs)
    ensures |e1| == |e| <= EntryLimit(bits) && InHeap(cs, |e1| - 2) && forall i :: 0 <= i < |cs| ==> cs[i] < 0x1000_0000
  {
  }

  /** The first cluster of a file, by way of its place on the disk. */
  method FirstClusterOf(vcb: Vcb, mcb: seq<nat>) returns (first: nat)
    requires vcb.bytesPerCluster > 0 && mcb != [] && mcb[0] < 0x1_0000_0000
    ensures first == mcb[0]
  {
    IndexOfLbo(vcb.fileAreaLbo, vcb.bytesPerCluster, mcb[0], 0);
    hide LboFromIndex;
    first := IndexFromLbo(vcb.fileAreaLbo, vcb.bytesPerCluster, LboFromIndex(vcb.fileAreaLbo, vcb.bytesPerCluster, mcb[0]));
  }

  /** Adds to the size of a file; only for a file that was empty is the sum what was added. */
  method AddToSize(size: nat, grown: nat, bytesPerCluster: nat, ghost n: nat, ghost more: nat) returns (size': nat, grown': nat)
    requires bytesPerCluster > 0 && more > 0 && Span(bytesPerCluster, n + more) <= 0x1_0000_0000
    requires size == Span(bytesPerCluster, n) && grown == AllocatedBytes(bytesPerCluster, more)
    ensures size' == AllocatedBytes(bytesPerCluster, n + more) && (size' == grown' <==> n == 0)
  {
    SpanAdds(bytesPerCluster, n, more);
    SpanMonotone(bytesPerCluster, 0, n);
    SpanMonotone(bytesPerCluster, 0, more);
    size', grown' := (size + grown) % 0x1_0000_0000, grown;
    if size' == 0 {
      size', grown' := MAXULONG, grown - 1;
    }
  }

  lemma Glued(bits: IndexBits, e: seq<nat>, e1: seq<nat>, e': seq<nat>, chain: seq<nat>, added: seq<nat>)
    requires Taken(bits, e, e1, added) && added != [] && (chain != [] ==> chain[|chain| - 1] < |e1|)
    requires e' == if chain == [] then e1 else e1[chain[|chain| - 1] := Truncated(bits, added[0])]
    ensures Grew(bits, e, e', chain, added)
  {
  }

  /** What is new lies in the heap, and the last cluster of the chain is still in use. */
  lemma ReadyToGlue(bits: IndexBits, e: seq<nat>, e1: seq<nat>, added: seq<nat>, chain: seq<nat>)
    requires Taken(bits, e, e1, added) && forall i :: 0 <= i < |e| ==> e[i] < EntryLimit(bits)
    requires chain == [] || IsChain(bits, e, chain)
    ensures |e1| == |e| && InHeap(added, |e1| - 2) && InHeap(chain, |e1| - 2)
    ensures chain != [] ==> e1[chain[|chain| - 1]] != FAT_CLUSTER_AVAILABLE
  {
    if chain != [] {
      TakenKeeps(bits, e, e1, added);
      ChainInUse(bits, e1, chain, |chain| - 1);
    }
  }

  /** Records the new size, with its wrap to the maximal file, and glues what is new behind what was there before. */
  method GlueFor(fcb: Fcb, grown: nat, newMcb: seq<nat>, ghost chain: seq<nat>)
    requires fcb.vcb.Valid() && newMcb != [] && InHeap(newMcb, fcb.vcb.fat.numberOfClusters) && InHeap(chain, fcb.vcb.fat.numberOfClusters)
    requires fcb.vcb.bytesPerCluster > 0 && grown == AllocatedBytes(fcb.vcb.bytesPerCluster, |newMcb|)
    requires fcb.mcb == if chain == [] then newMcb else chain
    requires fcb.allocationSize == Span(fcb.vcb.bytesPerCluster, |chain|)
    requires Span(fcb.vcb.bytesPerCluster, |chain| + |newMcb|) <= 0x1_0000_0000
    requires chain != [] ==> fcb.vcb.fat.entries[chain[|chain| - 1]] != FAT_CLUSTER_AVAILABLE
    modifies fcb`allocationSize, fcb`mcb, fcb.vcb.fat, fcb.vcb.fat.units
    ensures fcb.vcb.Valid() && fcb.mcb == chain + newMcb
    ensures fcb.vcb.fat.entries == if chain == [] then old(fcb.vcb.fat.entries)
      else old(fcb.vcb.fat.entries)[chain[|chain| - 1] := Truncated(fcb.vcb.fat.bits, newMcb[0])]
    ensures fcb.allocationSize == AllocatedBytes(fcb.vcb.bytesPerCluster, |chain| + |newMcb|)
  {
    var size, newAllocation := AddToSize(fcb.allocationSize, grown, fcb.vcb.bytesPerCluster, |chain|, |newMcb|);
    fcb.allocationSize := size;
    if fcb.allocationSize != newAllocation {
      var merged := MergeAllocation(fcb.vcb, fcb.mcb, newMcb);
      fcb.mcb := merged;
    } else {
      assert chain + newMcb == newMcb;
    }
  }

  /** The file has been given the clusters that a size calls for, behind those of its chain. */
  ghost predicate GrownTo(fcb: Fcb, desired: nat, chain: seq<nat>, added: seq<nat>, e0: seq<nat>, free0: nat)
    reads fcb, fcb.vcb, fcb.vcb.bitmap, fcb.vcb.windows, fcb.vcb.fat, fcb.vcb.fat.units
  {
    && fcb.vcb.Valid() && Grew(fcb.vcb.fat.bits, e0, fcb.vcb.fat.entries, chain, added)
    && fcb.vcb.bytesPerCluster > 0 && Span(fcb.vcb.bytesPerCluster, |chain|) < desired
    && |added| == ClustersFor(fcb.vcb.bytesPerCluster, desired - Span(fcb.vcb.bytesPerCluster, |chain|))
    && fcb.mcb == chain + added && fcb.firstCluster == fcb.mcb[0]
    && fcb.allocationSize == AllocatedBytes(fcb.vcb.bytesPerCluster, |fcb.mcb|) >= desired
    && fcb.vcb.numberOfFreeClusters == free0 - |added|
  }

  /** Glues clusters that have been taken behind the chain. */
  method GlueTaken(fcb: Fcb, grown: nat, newMcb: seq<nat>, ghost chain: seq<nat>, ghost e: seq<nat>)
    requires fcb.vcb.Valid() && newMcb != [] && Taken(fcb.vcb.fat.bits, e, fcb.vcb.fat.entries, newMcb)
    requires (chain == [] || IsChain(fcb.vcb.fat.bits, e, chain)) && forall i :: 0 <= i < |e| ==> e[i] < EntryLimit(fcb.vcb.fat.bits)
    requires fcb.vcb.bytesPerCluster > 0 && grown == AllocatedBytes(fcb.vcb.bytesPerCluster, |newMcb|)
    requires fcb.mcb == if chain == [] then newMcb else chain
    requires fcb.allocationSize == Span(fcb.vcb.bytesPerCluster, |chain|)
    requires Span(fcb.vcb.bytesPerCluster, |chain| + |newMcb|) <= 0x1_0000_0000
    modifies fcb`allocationSize, fcb`mcb, fcb.vcb.fat, fcb.vcb.fat.units
    ensures fcb.vcb.Valid() && fcb.mcb == chain + newMcb && Grew(fcb.vcb.fat.bits, e, fcb.vcb.fat.entries, chain, newMcb)
    ensures fcb.allocationSize == AllocatedBytes(fcb.vcb.bytesPerCluster, |chain| + |newMcb|)
  {
    ghost var e1 := fcb.vcb.fat.entries;
    ReadyToGlue(fcb.vcb.fat.bits, e, e1, newMcb, chain);
    hide Taken;
    hide IsChain;
    hide Grew;
    hide InOrder;
    GlueFor(fcb, grown, newMcb, chain);
    Glued(fcb.vcb.fat.bits, e, e1, fcb.vcb.fat.entries, chain, newMcb);
  }

  /** What growing a file starts from. */
  lemma {:induction false} ReadyToGrow(fcb: Fcb, desired: nat, chain: seq<nat>)
    requires fcb.Mounted() && fcb.vcb.Valid() && Sized(fcb, chain) && fcb.allocationSize < desired <= MAXULONG
    ensures fcb.mcb == chain && fcb.allocationSize == Span(fcb.vcb.bytesPerCluster, |chain|) && fcb.vcb.bytesPerCluster > 0
    ensures chain != [] ==> fcb.firstCluster == chain[0]
    ensures chain == [] || IsChain(fcb.vcb.fat.bits, fcb.vcb.fat.entries, chain)
    ensures forall i :: 0 <= i < |fcb.vcb.fat.entries| ==> fcb.vcb.fat.entries[i] < EntryLimit(fcb.vcb.fat.bits)
    ensures var more := ClustersFor(fcb.vcb.bytesPerCluster, desired - Span(fcb.vcb.bytesPerCluster, |chain|));
      Span(fcb.vcb.bytesPerCluster, |chain| + more) <= 0x1_0000_0000 && desired <= AllocatedBytes(fcb.vcb.bytesPerCluster, |chain| + more)
  {
    GrownSize(fcb.vcb.bytesPerCluster, |chain|, desired);
    fcb.vcb.fat.EntriesBounded();
    hide IsChain;
    hide InOrder;
    hide ClustersFor;
    hide CutAtRun;
    hide UsedBits;
  }

  lemma GrownNow(fcb: Fcb, desired: nat, chain: seq<nat>, added: seq<nat>, e0: seq<nat>, free0: nat)
    requires fcb.vcb.Valid() && Grew(fcb.vcb.fat.bits, e0, fcb.vcb.fat.entries, chain, added)
    requires fcb.vcb.bytesPerCluster > 0 && Span(fcb.vcb.bytesPerCluster, |chain|) < desired
    requires |added| == ClustersFor(fcb.vcb.bytesPerCluster, desired - Span(fcb.vcb.bytesPerCluster, |chain|))
    requires fcb.mcb == chain + added != [] && fcb.firstCluster == (if chain == [] then added[0] else chain[0])
    requires fcb.allocationSize == AllocatedBytes(fcb.vcb.bytesPerCluster, |chain| + |added|) >= desired
    requires fcb.vcb.numberOfFreeClusters == free0 - |added|
    ensures GrownTo(fcb, desired, chain, added, e0, free0)
  {
    hide Grew;
    hide InOrder;
    hide UsedBits;
    hide AllocatedBytes;
    hide ClustersFor;
  }

  /** Grows a file whose chain is known. */
  method Grow(fcb: Fcb, desired: nat, ghost chain: seq<nat>) returns (r: Growth, ghost added: seq<nat>)
    requires fcb.Mounted() && fcb.MapOk() && fcb.vcb.Valid() && Sized(fcb, chain) && fcb.allocationSize < desired <= MAXULONG
    modifies fcb, fcb.vcb, fcb.vcb.bitmap, fcb.vcb.windows, fcb.vcb.fat, fcb.vcb.fat.units
    ensures r in {Grown, Full, Halted} && fcb.fileSize == old(fcb.fileSize)
    ensures r == old(Granted(fcb.vcb, SpaceOf(fcb.vcb), chain, desired))
    ensures !r.Halted? ==> fcb.vcb.bitmap == old(fcb.vcb.bitmap) || fresh(fcb.vcb.bitmap)
    ensures r.Full? ==>
      && fcb.mcb == old(fcb.mcb) && fcb.firstCluster == old(fcb.firstCluster) && fcb.allocationSize == old(fcb.allocationSize)
      && fcb.vcb.Valid() && fcb.vcb.fat.entries == old(fcb.vcb.fat.entries)
      && fcb.vcb.numberOfFreeClusters == old(fcb.vcb.numberOfFreeClusters)
    ensures r.Grown? ==> GrownTo(fcb, desired, chain, added, old(fcb.vcb.fat.entries), old(fcb.vcb.numberOfFreeClusters))
  {
    hide *;
    ghost var e, free := fcb.vcb.fat.entries, fcb.vcb.numberOfFreeClusters;
    ReadyToGrow(fcb, desired, chain);
    var newAllocation, newMcb;
    added := [];
    r, newAllocation, newMcb := AllocateFor(fcb, desired, chain);
    if r.Grown? {
      added := newMcb;
      GlueTaken(fcb, newAllocation, newMcb, chain, e);
      GrownNow(fcb, desired, chain, added, e, free);
    }
  }

  /**
    FatAddFileAllocation.  A file that had no allocation gets a chain of its own; the
    allocation of another is glued behind its last cluster once it is complete.
   */
  method AddFileAllocation(fcb: Fcb, desired: nat) returns (r: Growth, ghost chain: seq<nat>, ghost added: seq<nat>)
    requires fcb.Ok() && fcb.vcb.Valid() && desired <= MAXULONG
    modifies fcb, fcb.vcb, fcb.vcb.bitmap, fcb.vcb.windows, fcb.vcb.fat, fcb.vcb.fat.units
    ensures fcb.fileSize == old(fcb.fileSize)
    ensures !r.Halted? && fcb.allocationSize == FCB_LOOKUP_ALLOCATIONSIZE_HINT ==> old(fcb.allocationSize) == FCB_LOOKUP_ALLOCATIONSIZE_HINT
    ensures r.Enough? || r.Unreadable? || r.Full? ==>
      && fcb.Ok() && fcb.vcb.Valid() && fcb.vcb.fat.entries == old(fcb.vcb.fat.entries) && fcb.firstCluster == old(fcb.firstCluster)
      && fcb.vcb.numberOfFreeClusters == old(fcb.vcb.numberOfFreeClusters)
    ensures r.Enough? ==> desired <= LowPart(fcb.allocationSize)
    ensures r.Unreadable? <==> old(SizeLost(fcb))
    ensures !r.Unreadable? ==>
      && ChainAt(fcb, old(fcb.vcb.fat.entries), old(fcb.firstCluster), chain)
      && r == old(Granted(fcb.vcb, SpaceOf(fcb.vcb), chain, desired))
    ensures r.Grown? ==> GrownTo(fcb, desired, chain, added, old(fcb.vcb.fat.entries), old(fcb.vcb.numberOfFreeClusters))
    ensures !r.Halted? ==> fcb.vcb.bitmap == old(fcb.vcb.bitmap) || fresh(fcb.vcb.bitmap)
  {
    hide *;
    MountedOk(fcb);
    chain, added := [], [];
    var ok := EnsureSize(fcb);
    if !ok {
      return Unreadable, chain, added;
    }
    chain := fcb.mcb;
    HeldIs(fcb, desired, chain);
    if desired <= LowPart(fcb.allocationSize) {
      return Enough, chain, added;
    }
    r, added := Grow(fcb, desired, chain);
    if r.Full? {
      StillSized(fcb, chain);
    } else if r.Grown? {
      GrownKnown(fcb, desired, chain, added, old(fcb.vcb.fat.entries), old(fcb.vcb.numberOfFreeClusters));
    }
  }

  lemma StillSized(fcb: Fcb, chain: seq<nat>)
    requires fcb.vcb.Valid() && fcb.firstCluster < 0x1_0000_0000 && fcb.fileSize <= MAXULONG
    requires fcb.vcb.bytesPerCluster > 1 && DividesFourGigabytes(fcb.vcb.bytesPerCluster) && fcb.vcb.fileAreaLbo > 0
    requires fcb.mcb == chain && ChainAt(fcb, fcb.vcb.fat.entries, fcb.firstCluster, chain)
    requires fcb.allocationSize == AllocatedBytes(fcb.vcb.bytesPerCluster, |chain|)
    ensures fcb.Ok() && fcb.allocationSize != FCB_LOOKUP_ALLOCATIONSIZE_HINT
  {
    if fcb.firstCluster != 0 {
      fcb.ChainIsMapped();
    }
    hide IsChain;
    hide CutAtRun;
    hide InOrder;
    hide DividesFourGigabytes;
  }

  lemma GrownKnown(fcb: Fcb, desired: nat, chain: seq<nat>, added: seq<nat>, e0: seq<nat>, free0: nat)
    requires GrownTo(fcb, desired, chain, added, e0, free0)
    ensures fcb.allocationSize != FCB_LOOKUP_ALLOCATIONSIZE_HINT
  {
    hide Grew;
    hide InOrder;
    hide UsedBits;
    hide ClustersFor;
  }

  lemma MountedOk(fcb: Fcb)
    requires fcb.Ok()
    ensures fcb.vcb.bytesPerCluster > 0
  {
  }

  /** What is known once the size of a file is: whether the chain holds what is asked for. */
  lemma HeldIs(fcb: Fcb, desired: nat, chain: seq<nat>)
    requires fcb.Ok() && fcb.mcb == chain && ChainOf(fcb, chain) && desired <= MAXULONG
    requires fcb.allocationSize == AllocatedBytes(fcb.vcb.bytesPerCluster, |chain|)
    ensures fcb.firstCluster < 0x1_0000_0000 && fcb.fileSize <= MAXULONG && fcb.vcb.bytesPerCluster > 1
    ensures DividesFourGigabytes(fcb.vcb.bytesPerCluster) && fcb.vcb.fileAreaLbo > 0
    ensures fcb.Mounted() && fcb.MapOk() && ChainAt(fcb, fcb.vcb.fat.entries, fcb.firstCluster, chain)
    ensures desired <= LowPart(fcb.allocationSize) ==> Granted(fcb.vcb, SpaceOf(fcb.vcb), chain, desired) == Enough
    ensures desired > LowPart(fcb.allocationSize) ==> Sized(fcb, chain) && fcb.allocationSize < desired
  {
    hide IsChain;
    hide CutAtRun;
    hide StopsWith;
    hide ClustersFor;
    hide DividesFourGigabytes;
  }

  datatype Truncation = NotLonger | Shortened | SizeUnreadable

  /** The clusters of a part of a chain can be freed. */
  lemma PartOwned(bits: IndexBits, e: seq<nat>, e': seq<nat>, cs: seq<nat>, from: nat)
    requires IsChain(bits, e, cs) && from <= |cs| && |e'| == |e|
    requires forall i :: from <= i < |cs| ==> e'[cs[i]] == e[cs[i]]
    ensures Owned(e', cs[from..])
  {
    ChainDistinct(bits, e, cs);
    var ds := cs[from..];
    forall i | 0 <= i < |ds| ensures e'[ds[i]] != FAT_CLUSTER_AVAILABLE {
      ChainInUse(bits, e, cs, from + i);
      assert ds[i] == cs[from + i];
    }
    forall i, j | 0 <= i < j < |ds| ensures Differ(ds, i, j) {
      assert Differ(cs, from + i, from + j);
    }
  }

  /** The entries after the clusters of a chain from some place on are freed, and the cluster before them is marked last. */
  ghost predicate CutAt(bits: IndexBits, e: seq<nat>, e': seq<nat>, chain: seq<nat>, kept: nat) {
    && kept <= |chain| && (forall i :: 0 <= i < |chain| ==> chain[i] < |e|)
    && FreedAs(if kept == 0 then e else e[chain[kept - 1] := LastMark(bits)], e', chain[kept..])
  }

  /** Frees the clusters of a file's chain from some place on. */
  method CutChain(fcb: Fcb, chain: seq<nat>, kept: nat)
    requires fcb.vcb.Valid() && fcb.mcb == chain && kept < |chain| && IsChain(fcb.vcb.fat.bits, fcb.vcb.fat.entries, chain)
    modifies fcb`mcb, fcb`firstCluster, fcb.vcb`clusterHint, fcb.vcb`used, fcb.vcb`numberOfFreeClusters, fcb.vcb.bitmap, fcb.vcb.windows,
      fcb.vcb.fat, fcb.vcb.fat.units
    ensures fcb.vcb.Valid() && CutAt(fcb.vcb.fat.bits, old(fcb.vcb.fat.entries), fcb.vcb.fat.entries, chain, kept)
    ensures fcb.mcb == chain[..kept] && fcb.firstCluster == if kept == 0 then 0 else old(fcb.firstCluster)
    ensures fcb.vcb.numberOfFreeClusters == old(fcb.vcb.numberOfFreeClusters) + (|chain| - kept)
  {
    hide *;
    ghost var e := fcb.vcb.fat.entries;
    var keptMcb, remaining := CutOff(fcb.vcb, chain, kept);
    fcb.mcb := keptMcb;
    if kept == 0 {
      fcb.firstCluster := 0;
    }
    ghost var e1 := fcb.vcb.fat.entries;
    DeallocateDiskSpace(fcb.vcb, remaining);
    CutAndFreed(fcb.vcb.fat.bits, e, e1, fcb.vcb.fat.entries, chain, kept);
  }

  /** Takes off a map what is behind some place, and cuts the chain there unless nothing is kept. */
  method CutOff(vcb: Vcb, chain: seq<nat>, kept: nat) returns (keptMcb: seq<nat>, remaining: seq<nat>)
    requires vcb.Valid() && kept < |chain| && IsChain(vcb.fat.bits, vcb.fat.entries, chain)
    modifies vcb.fat, vcb.fat.units
    ensures keptMcb == chain[..kept] && remaining == chain[kept..] && vcb.Valid() && Owned(vcb.fat.entries, remaining)
    ensures forall i :: 0 <= i < |chain| ==> chain[i] < |old(vcb.fat.entries)|
    ensures vcb.fat.entries == if kept == 0 then old(vcb.fat.entries) else old(vcb.fat.entries)[chain[kept - 1] := LastMark(vcb.fat.bits)]
  {
    ghost var bits, e := vcb.fat.bits, vcb.fat.entries;
    ReadyToCut(bits, e, chain, kept);
    hide *;
    keptMcb, remaining := [], chain;
    if kept > 0 {
      keptMcb, remaining := SplitAllocation(vcb, chain, kept);
    } else {
      assert chain == chain[0..] && chain[..0] == [];
    }
    RestOwned(bits, e, vcb.fat.entries, chain, kept);
  }

  lemma ReadyToCut(bits: IndexBits, e: seq<nat>, chain: seq<nat>, kept: nat)
    requires IsChain(bits, e, chain) && kept < |chain|
    ensures InHeap(chain, |e| - 2) && (kept > 0 ==> e[chain[kept - 1]] != FAT_CLUSTER_AVAILABLE)
    ensures forall i :: 0 <= i < |chain| ==> 2 <= chain[i] < |e|
  {
    if kept > 0 {
      ChainInUse(bits, e, chain, kept - 1);
    }
  }

  lemma RestOwned(bits: IndexBits, e: seq<nat>, e1: seq<nat>, chain: seq<nat>, kept: nat)
    requires IsChain(bits, e, chain) && kept < |chain|
    requires e1 == if kept == 0 then e else e[chain[kept - 1] := LastMark(bits)]
    ensures Owned(e1, chain[kept..])
  {
    if kept > 0 {
      forall i | kept <= i < |chain| ensures e1[chain[i]] == e[chain[i]] {
        CutElsewhere(bits, e, e1, chain, kept, i);
      }
    }
    PartOwned(bits, e, e1, chain, kept);
  }

  lemma CutAndFreed(bits: IndexBits, e: seq<nat>, e1: seq<nat>, e': seq<nat>, chain: seq<nat>, kept: nat)
    requires kept < |chain| && forall i :: 0 <= i < |chain| ==> chain[i] < |e|
    requires e1 == if kept == 0 then e else e[chain[kept - 1] := LastMark(bits)]
    requires FreedAs(e1, e', chain[kept..])
    ensures CutAt(bits, e, e', chain, kept)
  {
    hide FreedAs;
  }

  /** What is kept of a chain that is cut is a chain, what is cut off is free, and every other cluster in use keeps its entry. */
  lemma CutIsChain(bits: IndexBits, e: seq<nat>, e': seq<nat>, chain: seq<nat>, kept: nat)
    requires IsChain(bits, e, chain) && kept < |chain| && CutAt(bits, e, e', chain, kept)
    ensures kept > 0 ==> IsChain(bits, e', chain[..kept])
    ensures forall i :: kept <= i < |chain| ==> e'[chain[i]] == FAT_CLUSTER_AVAILABLE
    ensures KeptBut(e, e', chain) && forall i :: 0 <= i < |e'| ==> e'[i] < EntryLimit(bits)
  {
    hide *;
    ChainBounded(bits, e, chain);
    CutOthers(bits, e, e', chain, kept);
    if kept > 0 {
      CutFront(bits, e, e', chain, kept);
    }
  }

  lemma ChainBounded(bits: IndexBits, e: seq<nat>, chain: seq<nat>)
    requires IsChain(bits, e, chain)
    ensures forall i :: 0 <= i < |e| ==> e[i] < EntryLimit(bits)
  {
  }

  lemma CutOthers(bits: IndexBits, e: seq<nat>, e': seq<nat>, chain: seq<nat>, kept: nat)
    requires kept < |chain| && CutAt(bits, e, e', chain, kept) && forall i :: 0 <= i < |e| ==> e[i] < EntryLimit(bits)
    ensures forall i :: 0 <= i < |chain| ==> chain[i] < |e'|
    ensures forall i :: kept <= i < |chain| ==> e'[chain[i]] == FAT_CLUSTER_AVAILABLE
    ensures KeptBut(e, e', chain) && forall i :: 0 <= i < |e'| ==> e'[i] < EntryLimit(bits)
  {
    var cut := chain[kept..];
    hide InterpretClusterType;
    hide Truncated;
    forall i | kept <= i < |chain| ensures e'[chain[i]] == FAT_CLUSTER_AVAILABLE {
      assert cut[i - kept] == chain[i];
    }
    forall c | 0 <= c < |e| && c !in chain ensures e'[c] == e[c] {
      assert forall i :: 0 <= i < |cut| ==> cut[i] == chain[kept + i];
    }
  }

  lemma CutFront(bits: IndexBits, e: seq<nat>, e': seq<nat>, chain: seq<nat>, kept: nat)
    requires IsChain(bits, e, chain) && 0 < kept < |chain| && CutAt(bits, e, e', chain, kept)
    ensures IsChain(bits, e', chain[..kept])
  {
    hide InterpretClusterType;
    hide Truncated;
    var e1 := e[chain[kept - 1] := LastMark(bits)];
    SplitParts(bits, e, e1, chain, kept);
    ChainDistinct(bits, e, chain);
    FrontUntouched(bits, e1, e', chain, kept);
  }

  lemma FrontUntouched(bits: IndexBits, e1: seq<nat>, e': seq<nat>, chain: seq<nat>, kept: nat)
    requires 0 < kept < |chain| && Distinct(chain) && IsChain(bits, e1, chain[..kept]) && FreedAs(e1, e', chain[kept..])
    ensures IsChain(bits, e', chain[..kept])
  {
    var front, cut := chain[..kept], chain[kept..];
    forall i, j | 0 <= i < kept && 0 <= j < |cut| ensures front[i] != cut[j] {
      assert Differ(chain, i, kept + j);
    }
    forall i | 0 <= i < |front| ensures e'[front[i]] == e1[front[i]] {
      assert front[i] !in cut;
    }
    forall c | 0 <= c < |e'| ensures e'[c] < EntryLimit(bits) {
      if c in cut {
        var j :| 0 <= j < |cut| && cut[j] == c;
      }
    }
  }

  /** FatTruncateFileAllocation. */
  method TruncateFileAllocation(fcb: Fcb, desired: nat) returns (r: Truncation, ghost chain: seq<nat>)
    requires fcb.Ok() && fcb.vcb.Valid() && desired <= MAXULONG
    modifies fcb, fcb.vcb`clusterHint, fcb.vcb`used, fcb.vcb`numberOfFreeClusters, fcb.vcb.bitmap, fcb.vcb.windows, fcb.vcb.fat, fcb.vcb.fat.units
    ensures fcb.fileSize == old(fcb.fileSize) && fcb.vcb.Valid()
    ensures fcb.allocationSize == FCB_LOOKUP_ALLOCATIONSIZE_HINT ==> old(fcb.allocationSize) == FCB_LOOKUP_ALLOCATIONSIZE_HINT
    ensures !r.Shortened? ==> fcb.vcb.numberOfFreeClusters == old(fcb.vcb.numberOfFreeClusters)
    ensures r.SizeUnreadable? || r.NotLonger? ==> fcb.Ok() && fcb.vcb.fat.entries == old(fcb.vcb.fat.entries) && fcb.firstCluster == old(fcb.firstCluster)
    ensures r.SizeUnreadable? <==> old(SizeLost(fcb))
    ensures !r.SizeUnreadable? ==> ChainAt(fcb, old(fcb.vcb.fat.entries), old(fcb.firstCluster), chain)
    ensures !r.SizeUnreadable? ==> (r.Shortened? <==> (if desired == 0 then 0 else ClustersFor(fcb.vcb.bytesPerCluster, desired)) < |chain|)
    ensures r.Shortened? ==>
      var kept := if desired == 0 then 0 else ClustersFor(fcb.vcb.bytesPerCluster, desired);
      && CutAt(fcb.vcb.fat.bits, old(fcb.vcb.fat.entries), fcb.vcb.fat.entries, chain, kept)
      && fcb.mcb == chain[..kept] && fcb.firstCluster == (if kept == 0 then 0 else old(fcb.firstCluster))
      && fcb.allocationSize == Span(fcb.vcb.bytesPerCluster, kept) < 0x1_0000_0000
      && fcb.vcb.numberOfFreeClusters == old(fcb.vcb.numberOfFreeClusters) + (|chain| - kept)
  {
    chain := [];
    var ok := EnsureSize(fcb);
    if !ok {
      return SizeUnreadable, chain;
    }
    chain := fcb.mcb;
    hide IsChain;
    hide CutAtRun;
    hide InOrder;
    hide CutAt;
    hide ClustersFor;
    var longer, size, kept := LongerThan(fcb.vcb.bytesPerCluster, fcb.allocationSize, desired, |chain|);
    if !longer {
      return NotLonger, chain;
    }
    fcb.allocationSize := size;
    CutChain(fcb, fcb.mcb, kept);
    r := Shortened;
  }

  /** Whether an allocation is longer than a size asked for, rounded up to whole clusters; a sum that wraps asks for no less than the whole. */
  method LongerThan(bytesPerCluster: nat, allocationSize: nat, desired: nat, ghost n: nat) returns (longer: bool, size: nat, kept: nat)
    requires DividesFourGigabytes(bytesPerCluster) && bytesPerCluster > 1 && desired <= MAXULONG
    requires allocationSize == AllocatedBytes(bytesPerCluster, n) && Span(bytesPerCluster, n) <= 0x1_0000_0000
    ensures longer <==> (if desired == 0 then 0 else ClustersFor(bytesPerCluster, desired)) < n
    ensures longer ==> kept == (if desired == 0 then 0 else ClustersFor(bytesPerCluster, desired)) && size == Span(bytesPerCluster, kept) < 0x1_0000_0000
  {
    size, kept := desired, 0;
    SpanMonotone(bytesPerCluster, 0, n);
    if desired != 0 {
      RoundedUpIs(bytesPerCluster, desired);
      ghost var k := ClustersFor(bytesPerCluster, desired);
      SpanMonotone(bytesPerCluster, k, n);
      WholeClusters(bytesPerCluster, k);
      size := RoundedUp(bytesPerCluster, desired);
      if size == 0 || size >= allocationSize {
        if Span(bytesPerCluster, k) < 0x1_0000_0000 {
          BelowFourGigabytes(bytesPerCluster, k);
        }
        return false, size, kept;
      }
      kept := size / bytesPerCluster;
    }
    longer := size != allocationSize;
  }
}
