/**
  The allocation of a file: FatLookupFileAllocation with its partly filled run map,
  and FatLookupFileAllocationSize.
 */
module FileAllocation {
  import opened FatEntries
  import opened FatTable
  import opened Mcb
  import opened Volume
  import opened Sizes
  import opened FileMap
  import opened Deallocation

  const MAXULONG: nat := 0xffff_ffff
  const FCB_LOOKUP_ALLOCATIONSIZE_HINT: int := -1

  /** The low part of an allocation size, of which the hint has all bits set. */
  function LowPart(allocationSize: int): nat {
    if allocationSize < 0 then MAXULONG else allocationSize
  }

  /** The local variables of the walk along the FAT; firstLbo is zero until the walk knows where its run started. */
  datatype Walker = Walker(currentVbo: nat, currentLbo: nat, firstVbo: nat, firstLbo: nat, runs: nat, fatEntry: nat)

  datatype Progress = Going | Found | Missing | Broken

  /** A last run without inner boundaries adds one to the number of runs. */
  lemma {:induction false} RunCountGrows(m: seq<nat>, n: nat)
    requires n < |m| && Boundary(m, n) && forall i :: n < i < |m| ==> !Boundary(m, i)
    ensures RunCount(m) == RunCount(m[..n]) + 1 == RunIndex(m, n) + 1
    ensures RunEnd(m, n) == |m|
  {
    RunIndexSteps(m, n, |m| - 1);
    NextRunExists(m, n);
    if n > 0 {
      RunIndexOfPrefix(m, n, n - 1);
    }
  }

  /** The extent computed from the start of the last run. */
  lemma {:induction false} LastRunAnswers(area: nat, bytesPerCluster: nat, m: seq<nat>, f: nat, vbo: nat)
    requires bytesPerCluster > 0 && forall i :: 0 <= i < |m| ==> 2 <= m[i] < 0x1_0000_0000
    requires f < |m| && Boundary(m, f) && forall i :: f < i < |m| ==> !Boundary(m, i)
    requires Span(bytesPerCluster, f) <= vbo < Span(bytesPerCluster, |m|)
    ensures Answers(area, bytesPerCluster, m, vbo,
      Extent(LboFromIndex(area, bytesPerCluster, m[f]) + (vbo - Span(bytesPerCluster, f)), Span(bytesPerCluster, |m|) - vbo, RunCount(m) - 1))
  {
    var k := ClusterBetween(bytesPerCluster, f, |m|, vbo);
    SpanAdds(bytesPerCluster, f, k - f);
    RunConsecutive(m, f, k);
    RunCountGrows(m, f);
    RunIndexSteps(m, f, k);
    NextRunExists(m, k);
    RunIndexSteps(m, f, |m| - 1);
    LboApart(area, bytesPerCluster, m[f], k - f);
    hide LboFromIndex;
    assert AnswersAt(area, bytesPerCluster, m, vbo,
      Extent(LboFromIndex(area, bytesPerCluster, m[f]) + (vbo - Span(bytesPerCluster, f)), Span(bytesPerCluster, |m|) - vbo, RunCount(m) - 1), k);
  }

  /** A chain of at most 4 GB from a cluster on. */
  ghost predicate ReadableFrom(bits: IndexBits, e: seq<nat>, bytesPerCluster: nat, first: nat, ds: seq<nat>) {
    IsChain(bits, e, ds) && ds[0] == first && Span(bytesPerCluster, |ds|) <= 0x1_0000_0000
  }

  class Fcb {
    const vcb: Vcb
    var firstCluster: nat
    var allocationSize: int
    var fileSize: nat
    var mcb: seq<nat>

    /** FatCreateFcb: the fields that come from the directory entry. */
    constructor (vcb: Vcb, firstCluster: nat, fileSize: nat)
      ensures this.vcb == vcb && this.firstCluster == firstCluster && this.fileSize == fileSize && mcb == []
      ensures allocationSize == if firstCluster == 0 then 0 else FCB_LOOKUP_ALLOCATIONSIZE_HINT
    {
      this.vcb := vcb;
      this.firstCluster := firstCluster;
      this.fileSize := fileSize;
      allocationSize := if firstCluster == 0 then 0 else FCB_LOOKUP_ALLOCATIONSIZE_HINT;
      mcb := [];
    }

    /** A walk over n clusters that does not end there has wrapped, or has passed more clusters than a volume below 4 GB has. */
    ghost predicate TooFar(n: nat) {
      || Span(vcb.bytesPerCluster, n) == 0x1_0000_0000
      || Span(vcb.bytesPerCluster, vcb.fat.numberOfClusters) < Span(vcb.bytesPerCluster, n) < 0x1_0000_0000
    }

    /** The run map is a part of the file's chain, from its first cluster, cut where a longest run ends. */
    ghost predicate MapOk()
      reads this, vcb, vcb.fat
    {
      && (forall i {:trigger mcb[i]} :: 0 <= i < |mcb| ==> 2 <= mcb[i] < 0x1000_0000)
      && (mcb != [] ==> mcb[0] == firstCluster && CutAtRun(vcb.fat.bits, vcb.fat.entries, mcb) && (|mcb| > 1 ==> !TooFar(|mcb| - 1)))
    }

    ghost predicate Mounted()
      reads this, vcb, vcb.fat, vcb.fat.units
    {
      && vcb.fat.Valid() && firstCluster < 0x1_0000_0000
      && vcb.bytesPerCluster > 1 && DividesFourGigabytes(vcb.bytesPerCluster) && vcb.fileAreaLbo > 0
    }

    /** Where a walk is: path holds the clusters passed so far, of which the map holds all but those of the last run. */
    ghost predicate Walking(vbo: nat, w: Walker, path: seq<nat>)
      reads this, vcb, vcb.fat
    {
      && vcb.bytesPerCluster > 0 && Path(vcb.fat.bits, vcb.fat.entries, path) && path[0] == firstCluster
      && (|path| > 1 ==> !TooFar(|path| - 1))
      && w.fatEntry == path[|path| - 1] < 0x1_0000_0000
      && w.currentVbo == Span(vcb.bytesPerCluster, |path| - 1) < 0x1_0000_0000
      && w.currentLbo == LboFromIndex(vcb.fileAreaLbo, vcb.bytesPerCluster, w.fatEntry)
      && |mcb| <= |path| && mcb == path[..|mcb|] && w.runs == RunCount(mcb) && Span(vcb.bytesPerCluster, |mcb|) <= vbo
      && if w.firstLbo == 0 then |mcb| == |path| else |mcb| < |path| && path[|mcb|] < 0x1_0000_0000 && RunStarted(w, path)
    }

    /** The run that is being followed: where it started, and that it goes on up to here. */
    ghost predicate RunStarted(w: Walker, path: seq<nat>)
      requires |mcb| < |path| && path[|mcb|] < 0x1_0000_0000
      reads this, vcb
    {
      && w.firstVbo == Span(vcb.bytesPerCluster, |mcb|)
      && w.firstLbo == LboFromIndex(vcb.fileAreaLbo, vcb.bytesPerCluster, path[|mcb|])
      && Boundary(path, |mcb|) && forall i :: |mcb| < i < |path| ==> !Boundary(path, i)
    }

    /** A cluster of the heap holds an entry of this type. */
    ghost predicate Leads(cluster: nat, t: ClusterType)
      reads this, vcb, vcb.fat
    {
      && vcb.fat.IndexIsValid(cluster) && cluster < |vcb.fat.entries| && vcb.fat.entries[cluster] < EntryLimit(vcb.fat.bits)
      && InterpretClusterType(vcb.fat.bits, vcb.fat.entries[cluster]) == t
    }

    /** FatAddMcbEntry, at the end of the map; the length is rounded up to whole units. */
    method AddMcbEntry(vbo: nat, lbo: nat, byteCount: nat, ghost path: seq<nat>)
      requires vcb.bytesPerCluster > 1 && |mcb| < |path| && mcb == path[..|mcb|] && path[|mcb|] < 0x1_0000_0000
      requires forall i :: |mcb| < i < |path| ==> !Boundary(path, i)
      requires vbo == Span(vcb.bytesPerCluster, |mcb|) && lbo == LboFromIndex(vcb.fileAreaLbo, vcb.bytesPerCluster, path[|mcb|])
      requires byteCount == Span(vcb.bytesPerCluster, |path| - |mcb|) || byteCount + 1 == Span(vcb.bytesPerCluster, |path| - |mcb|)
      modifies `mcb
      ensures mcb == path
    {
      var cluster := IndexFromLbo(vcb.fileAreaLbo, vcb.bytesPerCluster, lbo);
      IndexOfLbo(vcb.fileAreaLbo, vcb.bytesPerCluster, path[|mcb|], 0);
      ghost var n := |path| - |mcb|;
      SpanIs(vcb.bytesPerCluster, n - 1);
      QuotientUnique(vcb.bytesPerCluster, byteCount - 1, n - 1, byteCount - 1 - Span(vcb.bytesPerCluster, n - 1));
      var units := (byteCount - 1) / vcb.bytesPerCluster + 1;
      RunIs(path, |mcb|, |path|);
      assert path == path[..|mcb|] + path[|mcb|..];
      mcb := mcb + Run(cluster, units);
    }

    /** A walk cannot have passed a chain's clusters and then be stuck. */
    lemma Stuck(path: seq<nat>, ds: seq<nat>)
      requires vcb.fat.Valid() && Path(vcb.fat.bits, vcb.fat.entries, path)
      requires IsChain(vcb.fat.bits, vcb.fat.entries, ds) && ds[0] == path[0]
      ensures var last := path[|path| - 1];
        vcb.fat.IndexIsValid(last) && InterpretClusterType(vcb.fat.bits, vcb.fat.entries[last]) in {Next, Last}
      ensures |path| <= |ds| <= vcb.fat.numberOfClusters
    {
      PathAlongChain(vcb.fat.bits, vcb.fat.entries, path, ds);
      ChainDistinct(vcb.fat.bits, vcb.fat.entries, ds);
      Pigeonhole(ds, 2, vcb.fat.numberOfClusters);
      var i := |path| - 1;
      assert path[i] == ds[i];
      assert i + 1 < |ds| ==> vcb.fat.entries[ds[i]] == ds[i + 1];
    }

    /** Where a file may start the walk: its run map is empty, or at the end of the map. */
    method StartWalk(vbo: nat) returns (mapped: bool, w: Walker, ghost path: seq<nat>)
      requires Mounted() && MapOk() && Span(vcb.bytesPerCluster, |mcb|) <= vbo < 0x1_0000_0000
      ensures !mapped <==> mcb == [] && firstCluster == 0
      ensures mapped ==> Walking(vbo, w, path) && (mcb == [] ==> w.firstLbo != 0)
      ensures mapped ==> |path| == if mcb == [] then 1 else |mcb|
    {
      hide LboFromIndex;
      hide IndexFromLbo;
      mapped, path := true, mcb;
      var found, currentVbo, currentLbo, runs := LookupLastMcbEntry(vcb, mcb);
      var firstVbo, firstLbo := 0, 0;
      if found {
        currentVbo := currentVbo - (vcb.bytesPerCluster - 1);
        currentLbo := currentLbo - (vcb.bytesPerCluster - 1);
        runs := runs + 1;
        IndexOfLbo(vcb.fileAreaLbo, vcb.bytesPerCluster, mcb[|mcb| - 1], 0);
        SpanMonotone(vcb.bytesPerCluster, |mcb| - 1, |mcb|);
      } else if firstCluster == 0 {
        return false, Walker(0, 0, 0, 0, 0, 0), [];
      } else {
        path := [firstCluster];
        currentVbo, currentLbo := 0, LboFromIndex(vcb.fileAreaLbo, vcb.bytesPerCluster, firstCluster);
        firstVbo, firstLbo, runs := currentVbo, currentLbo, 0;
        IndexOfLbo(vcb.fileAreaLbo, vcb.bytesPerCluster, firstCluster, 0);
      }
      w := Walker(currentVbo, currentLbo, firstVbo, firstLbo, runs, IndexFromLbo(vcb.fileAreaLbo, vcb.bytesPerCluster, currentLbo));
    }

    /** A walker's run is the last run of the map. */
    ghost predicate AtRun(w: Walker, f: nat)
      reads this, vcb
    {
      && f < |mcb| && Boundary(mcb, f) && (forall i :: f < i < |mcb| ==> !Boundary(mcb, i)) && mcb[f] < 0x1_0000_0000
      && w.firstVbo == Span(vcb.bytesPerCluster, f) && w.firstLbo == LboFromIndex(vcb.fileAreaLbo, vcb.bytesPerCluster, mcb[f])
    }

    /** The last run of the map holds the byte, and the walker knows where that run starts. */
    ghost predicate Located(vbo: nat, w: Walker)
      reads this, vcb
    {
      && w.firstVbo <= vbo < Span(vcb.bytesPerCluster, |mcb|) && vbo <= w.currentVbo && vbo != MAXULONG - 1
      && w.currentVbo == AllocatedBytes(vcb.bytesPerCluster, |mcb|) && w.runs == RunCount(mcb)
      && exists f: nat :: AtRun(w, f)
    }

    /** Adds the run that a walk has followed to the map. */
    method FinishRun(w: Walker, currentVbo: nat, vbo: nat, ghost path: seq<nat>) returns (runs: nat)
      requires Mounted() && Walking(vbo, w, path) && CutAtRun(vcb.fat.bits, vcb.fat.entries, path)
      requires currentVbo == Span(vcb.bytesPerCluster, |path|) || currentVbo + 1 == Span(vcb.bytesPerCluster, |path|)
      modifies `mcb
      ensures MapOk() && mcb == path && runs == RunCount(path) && |old(mcb)| <= |mcb|
      ensures w.firstLbo != 0 ==> AtRun(w, |old(mcb)|) && w.firstVbo <= vbo
    {
      runs := w.runs;
      PathInHeap(vcb.fat.bits, vcb.fat.entries, path);
      hide CutAtRun;
      if w.firstLbo != 0 {
        ghost var n := |mcb|;
        SpanAdds(vcb.bytesPerCluster, n, |path| - n);
        RunCountGrows(path, n);
        AddMcbEntry(w.firstVbo, w.firstLbo, currentVbo - w.firstVbo, path);
        runs := runs + 1;
      } else {
        assert path[..|mcb|] == path;
      }
    }

    /** The next entry is the last mark: the map is completed, and the walk is over. */
    method ReachLast(vbo: nat, w: Walker, nextVbo: nat, ghost path: seq<nat>) returns (status: Progress, w': Walker, endOnMax: bool)
      requires Mounted() && MapOk() && Walking(vbo, w, path) && vbo < 0x1_0000_0000
      requires Leads(w.fatEntry, Last)
      requires nextVbo == (w.currentVbo + vcb.bytesPerCluster) % 0x1_0000_0000
      modifies `mcb, `allocationSize
      ensures MapOk() && status in {Found, Missing} && |old(mcb)| <= |mcb|
      ensures status.Missing? ==> Readable(mcb) && (vbo == MAXULONG - 1 || AllocatedBytes(vcb.bytesPerCluster, |mcb|) <= vbo)
      ensures allocationSize == if vbo == MAXULONG - 1 then AllocatedBytes(vcb.bytesPerCluster, |mcb|) else old(allocationSize)
      ensures status.Found? ==> Located(vbo, w')
    {
      WrapsAtFourGigabytes(vcb.bytesPerCluster, |path|);
      PathInHeap(vcb.fat.bits, vcb.fat.entries, path);
      vcb.fat.EntriesBounded();
      CutAtRunIff(vcb.fat.bits, vcb.fat.entries, path);
      hide Path;
      hide CutAtRun;
      hide IsChain;
      var currentVbo := nextVbo;
      endOnMax := currentVbo == 0;
      if endOnMax {
        currentVbo := MAXULONG;
      }
      var runs := FinishRun(w, currentVbo, vbo, path);
      w' := w.(currentVbo := currentVbo, runs := runs);
      status := Found;
      if vbo == MAXULONG - 1 {
        allocationSize := currentVbo;
        status := Missing;
      } else if vbo >= currentVbo && !endOnMax {
        status := Missing;
      } else {
        assert AtRun(w', |old(mcb)|);
      }
    }

    /** The loop check: the offset has wrapped, or is beyond the size of a volume below 4 GB. */
    method WalkedTooFar(nextVbo: nat, ghost n: nat) returns (tooFar: bool)
      requires 0 < Span(vcb.bytesPerCluster, n) <= 0x1_0000_0000 && nextVbo == Span(vcb.bytesPerCluster, n) % 0x1_0000_0000
      ensures tooFar <==> TooFar(n)
    {
      var bytesOnVolume := vcb.fat.numberOfClusters * vcb.bytesPerCluster;
      SpanIs(vcb.bytesPerCluster, vcb.fat.numberOfClusters);
      tooFar := nextVbo == 0 || (bytesOnVolume / 0x1_0000_0000 == 0 && nextVbo > bytesOnVolume % 0x1_0000_0000);
    }

    /** The next entry is a link: unless the walk has gone too far, the run goes on, or ends and is added to the map. */
    method ReachNext(vbo: nat, w: Walker, nextVbo: nat, entry: nat, ghost path: seq<nat>) returns (status: Progress, w': Walker)
      requires Mounted() && MapOk() && Walking(vbo, w, path) && vbo < 0x1_0000_0000
      requires Leads(w.fatEntry, Next) && entry == vcb.fat.entries[w.fatEntry]
      requires nextVbo == (w.currentVbo + vcb.bytesPerCluster) % 0x1_0000_0000
      modifies `mcb
      ensures MapOk() && !status.Missing? && |old(mcb)| <= |mcb|
      ensures status.Going? ==> Walking(vbo, w', path + [entry])
      ensures status.Found? ==> Located(vbo, w')
      ensures status.Broken? ==> mcb == old(mcb) && forall ds :: !Readable(ds)
    {
      WrapsAtFourGigabytes(vcb.bytesPerCluster, |path|);
      var currentLbo := LboFromIndex(vcb.fileAreaLbo, vcb.bytesPerCluster, entry);
      var tooFar := WalkedTooFar(nextVbo, |path|);
      PathGrows(vcb.fat.bits, vcb.fat.entries, path, entry);
      CutAtRunIff(vcb.fat.bits, vcb.fat.entries, path);
      assert path[..|path|] == path;
      hide Path;
      hide CutAtRun;
      if tooFar {
        WentTooFar(path, entry);
        return Broken, w;
      }
      LbosAdjoin(vcb.fileAreaLbo, vcb.bytesPerCluster, w.fatEntry, entry);
      if w.currentLbo + vcb.bytesPerCluster != currentLbo {
        status, w' := EndRun(vbo, w, nextVbo, currentLbo, entry, path);
      } else {
        status, w' := Going, w.(currentVbo := nextVbo, currentLbo := currentLbo, fatEntry := entry);
        if |mcb| < |path| {
          RunGrows(path, |mcb|, entry);
        }
      }
    }

    /** A run that ends before the byte is only added to the map; one that holds the byte ends the walk. */
    method EndRun(vbo: nat, w: Walker, nextVbo: nat, currentLbo: nat, entry: nat, ghost path: seq<nat>) returns (status: Progress, w': Walker)
      requires Mounted() && MapOk() && Walking(vbo, w, path) && vbo < 0x1_0000_0000 && !TooFar(|path|)
      requires |path| > 0 && nextVbo == Span(vcb.bytesPerCluster, |path|) < 0x1_0000_0000
      requires entry < 0x1_0000_0000 && currentLbo == LboFromIndex(vcb.fileAreaLbo, vcb.bytesPerCluster, entry)
      requires Path(vcb.fat.bits, vcb.fat.entries, path + [entry]) && CutAtRun(vcb.fat.bits, vcb.fat.entries, path) && entry != w.fatEntry + 1
      modifies `mcb
      ensures MapOk() && |old(mcb)| <= |mcb|
      ensures if status.Going? then Walking(vbo, w', path + [entry]) else status.Found? && Located(vbo, w')
    {
      hide Path;
      hide CutAtRun;
      var runs := FinishRun(w, nextVbo, vbo, path);
      if nextVbo > vbo {
        BelowFourGigabytes(vcb.bytesPerCluster, |path|);
        status, w' := Found, w.(currentVbo := nextVbo, runs := runs);
        assert AtRun(w', |old(mcb)|);
      } else {
        status := Going;
        w' := w.(currentVbo := nextVbo, currentLbo := currentLbo, firstVbo := nextVbo, firstLbo := currentLbo, runs := runs, fatEntry := entry);
        assert path == (path + [entry])[..|path|];
      }
    }

    lemma WentTooFar(path: seq<nat>, entry: nat)
      requires vcb.fat.Valid() && vcb.bytesPerCluster > 0 && Path(vcb.fat.bits, vcb.fat.entries, path + [entry])
      requires |path| > 0 && path[0] == firstCluster && TooFar(|path|)
      ensures forall ds :: !Readable(ds)
    {
      forall ds: seq<nat> ensures !Readable(ds) {
        NotReadable(path + [entry], ds);
      }
    }

    /** The chain of the file, if it has one of at most 4 GB. */
    ghost predicate Readable(ds: seq<nat>)
      reads this, vcb, vcb.fat
    {
      ReadableFrom(vcb.fat.bits, vcb.fat.entries, vcb.bytesPerCluster, firstCluster, ds)
    }

    /** A walk that has passed its file's chain for too long has no such chain to pass. */
    lemma NotReadable(path: seq<nat>, ds: seq<nat>)
      requires vcb.fat.Valid() && vcb.bytesPerCluster > 0
      requires Path(vcb.fat.bits, vcb.fat.entries, path) && path[0] == firstCluster
      requires var last := path[|path| - 1];
        !vcb.fat.IndexIsValid(last) || Leads(last, Available) || Leads(last, Reserved) || Leads(last, Bad) || (|path| > 1 && TooFar(|path| - 1))
      ensures !Readable(ds)
    {
      if IsChain(vcb.fat.bits, vcb.fat.entries, ds) && ds[0] == path[0] {
        Stuck(path, ds);
        SpanMonotone(vcb.bytesPerCluster, |ds|, |path| - 1);
        SpanMonotone(vcb.bytesPerCluster, |ds|, vcb.fat.numberOfClusters);
      }
    }

    /** One step of the walk: reads the entry of the cluster it is at. */
    method Step(vbo: nat, w: Walker, pinned: int, ghost path: seq<nat>)
      returns (status: Progress, w': Walker, pinned': int, endOnMax: bool, ghost path': seq<nat>)
      requires Mounted() && MapOk() && Walking(vbo, w, path) && vbo < 0x1_0000_0000
      modifies `mcb, `allocationSize
      ensures MapOk() && |old(mcb)| <= |mcb|
      ensures status.Going? ==> Walking(vbo, w', path') && |path'| == |path| + 1 && allocationSize == old(allocationSize)
      ensures status.Broken? ==> (forall ds :: !Readable(ds)) && allocationSize == old(allocationSize) && mcb == old(mcb)
      ensures status.Missing? ==>
        && Readable(mcb) && (vbo == MAXULONG - 1 || AllocatedBytes(vcb.bytesPerCluster, |mcb|) <= vbo)
        && allocationSize == if vbo == MAXULONG - 1 then AllocatedBytes(vcb.bytesPerCluster, |mcb|) else old(allocationSize)
      ensures status.Found? ==> Located(vbo, w') && allocationSize == old(allocationSize)
    {
      hide Path;
      endOnMax, w', path' := false, w, path;
      var ok, entry;
      ok, entry, pinned' := vcb.fat.LookupFatEntry(w.fatEntry, pinned);
      if !ok {
        forall ds: seq<nat> ensures !Readable(ds) {
          NotReadable(path, ds);
        }
        return Broken, w, pinned', false, path;
      }
      var nextVbo := (w.currentVbo + vcb.bytesPerCluster) % 0x1_0000_0000;
      match InterpretClusterType(vcb.fat.bits, entry) {
        case Last =>
          status, w', endOnMax := ReachLast(vbo, w, nextVbo, path);
        case Next =>
          status, w' := ReachNext(vbo, w, nextVbo, entry, path);
          path' := path + [entry];
        case _ =>
          status := Broken;
          forall ds: seq<nat> ensures !Readable(ds) {
            NotReadable(path, ds);
          }
      }
    }

    lemma LocatedRuns(vbo: nat, w: Walker)
      requires Located(vbo, w)
      ensures w.runs > 0
    {
    }

    /** What a located byte is answered with; a file that ends in the maximal cluster is one byte short. */
    lemma LocatedAnswers(vbo: nat, w: Walker)
      requires vcb.bytesPerCluster > 0 && MapOk() && Located(vbo, w) && Span(vcb.bytesPerCluster, |mcb|) < 0x1_0000_0000
      ensures vbo < w.currentVbo && w.runs > 0
      ensures Answers(vcb.fileAreaLbo, vcb.bytesPerCluster, mcb, vbo, Extent(w.firstLbo + (vbo - w.firstVbo), w.currentVbo - vbo, w.runs - 1))
    {
      var f: nat :| AtRun(w, f);
      LastRunAnswers(vcb.fileAreaLbo, vcb.bytesPerCluster, mcb, f, vbo);
    }

    /** The number of entries a walk reads before the loop check stops it. */
    ghost predicate StepsWithin(steps: nat)
      reads this, vcb
    {
      && Span(vcb.bytesPerCluster, steps) <= 0x1_0000_0000
      && (Span(vcb.bytesPerCluster, vcb.fat.numberOfClusters) < 0x1_0000_0000 ==> steps <= vcb.fat.numberOfClusters + 1)
    }

    /** A walk that is still under way has not read too many entries, and is below 4 GB. */
    lemma WalkWithin(vbo: nat, w: Walker, path: seq<nat>, steps: nat)
      requires Mounted() && Walking(vbo, w, path) && steps <= |path|
      ensures StepsWithin(steps)
      ensures vcb.bytesPerCluster * |path| <= 0x1_0000_0000 && |path| <= 0x1_0000_0000
    {
      WrapsAtFourGigabytes(vcb.bytesPerCluster, |path|);
      SpanIs(vcb.bytesPerCluster, |path|);
      SpanMonotone(vcb.bytesPerCluster, steps, |path|);
      SpanMonotone(vcb.bytesPerCluster, |path| - 1, vcb.fat.numberOfClusters);
      ProductMonotone(1, vcb.bytesPerCluster, |path|);
    }

    /** What a walk has come to. */
    ghost predicate Outcome(vbo: nat, status: Progress, w: Walker, path: seq<nat>, steps: nat)
      reads this, vcb, vcb.fat
    {
      match status
      case Going => Walking(vbo, w, path) && steps < |path|
      case Found => Located(vbo, w)
      case Missing => EndsBefore(vbo)
      case Broken => Span(vcb.bytesPerCluster, |mcb|) <= vbo && forall ds :: !Readable(ds)
    }

    /** The map is the whole chain, and the byte lies behind it, or the question was for the size. */
    ghost predicate EndsBefore(vbo: nat)
      reads this, vcb, vcb.fat
    {
      Readable(mcb) && (vbo == MAXULONG - 1 || AllocatedBytes(vcb.bytesPerCluster, |mcb|) <= vbo)
    }

    /** The walk along the FAT, from the end of the map. */
    method Walk(vbo: nat, w0: Walker, ghost path0: seq<nat>) returns (status: Progress, w: Walker, endOnMax: bool, ghost steps: nat)
      requires Mounted() && MapOk() && vbo < 0x1_0000_0000 && Walking(vbo, w0, path0) && |path0| > 0
      modifies `mcb, `allocationSize
      ensures MapOk() && !status.Going? && Outcome(vbo, status, w, [], steps) && StepsWithin(steps) && |old(mcb)| <= |mcb|
      ensures allocationSize ==
        if status.Missing? && vbo == MAXULONG - 1 then AllocatedBytes(vcb.bytesPerCluster, |mcb|) else old(allocationSize)
    {
      hide Path;
      hide CutAtRun;
      hide IsChain;
      var pinned;
      ghost var path;
      pinned, status, w, path, steps, endOnMax := -1, Going, w0, path0, 0, false;
      while status.Going?
        invariant MapOk() && Mounted() && Outcome(vbo, status, w, path, steps) && (!status.Going? ==> StepsWithin(steps)) && |old(mcb)| <= |mcb|
        invariant allocationSize ==
          if status.Missing? && vbo == MAXULONG - 1 then AllocatedBytes(vcb.bytesPerCluster, |mcb|) else old(allocationSize)
        decreases if status.Going? then 0x1_0000_0001 - |path| else 0
      {
        WalkWithin(vbo, w, path, steps + 1);
        status, w, pinned, endOnMax, path := Step(vbo, w, pinned, path);
        steps := steps + 1;
      }
    }

    /** A map that answers for a byte answers as the file's whole chain does, and a map that is a chain is the file's chain. */
    lemma MapAnswersForChain(vbo: nat, r: Answer, ds: seq<nat>)
      requires vcb.bytesPerCluster > 0 && MapOk() && mcb != [] && Readable(ds)
      ensures Answers(vcb.fileAreaLbo, vcb.bytesPerCluster, mcb, vbo, r) ==> Answers(vcb.fileAreaLbo, vcb.bytesPerCluster, ds, vbo, r)
      ensures |mcb| <= |ds| && (Readable(mcb) ==> mcb == ds)
    {
      PathAlongChain(vcb.fat.bits, vcb.fat.entries, mcb, ds);
      var n := |mcb|;
      if n < |ds| {
        assert vcb.fat.entries[ds[n - 1]] == ds[n];
        assert mcb[n - 1] == ds[n - 1];
      }
      if Readable(mcb) {
        ChainUnique(vcb.fat.bits, vcb.fat.entries, mcb, ds);
      }
      if Answers(vcb.fileAreaLbo, vcb.bytesPerCluster, mcb, vbo, r) {
        PrefixAnswers(vcb.fileAreaLbo, vcb.bytesPerCluster, ds, n, vbo, r);
      }
    }

    /** A size lookup that has found the whole chain records its size. */
    ghost predicate SizeKnown()
      reads this, vcb, vcb.fat
    {
      Readable(mcb) && allocationSize == AllocatedBytes(vcb.bytesPerCluster, |mcb|)
    }

    /** The answer of a lookup is that of a lookup in the whole chain. */
    ghost predicate AnswersForChain(vbo: nat, r: Answer)
      reads this, vcb, vcb.fat
    {
      forall ds :: Readable(ds) && Span(vcb.bytesPerCluster, |ds|) < 0x1_0000_0000 ==>
        if vbo < Span(vcb.bytesPerCluster, |ds|) then Answers(vcb.fileAreaLbo, vcb.bytesPerCluster, ds, vbo, r) else r == NotAllocated
    }

    /**
      A file lies on the disk as a chain, by the values in the FAT: links, and behind the
      last cluster any of the end-of-chain marks.
     */
    ghost predicate LiesAt(ds: seq<nat>)
      reads this, vcb, vcb.fat
    {
      LiesAsChain(vcb.fat.bits, vcb.fat.entries, ds) && ds[0] == firstCluster
    }

    /** Exactly such a file, of at most 4 GB, can be read. */
    lemma ReadableByValues(ds: seq<nat>)
      requires Mounted()
      ensures Readable(ds) <==> LiesAt(ds) && |ds| * vcb.bytesPerCluster <= 0x1_0000_0000
    {
      vcb.fat.EntriesBounded();
      ChainByValues(vcb.fat.bits, vcb.fat.entries, ds);
      SpanIs(vcb.bytesPerCluster, |ds|);
      hide IsChain;
    }

    /** The answer of a lookup, by the values in the FAT: the place of the byte, or that the file ends before it. */
    ghost predicate AnswersByValues(vbo: nat, r: Answer)
      requires vcb.bytesPerCluster > 0
      reads this, vcb, vcb.fat
    {
      forall ds :: LiesAt(ds) && |ds| * vcb.bytesPerCluster < 0x1_0000_0000 ==>
        if vbo < |ds| * vcb.bytesPerCluster then PlaceOf(vcb.fileAreaLbo, vcb.bytesPerCluster, ds, vbo, r) else r == NotAllocated
    }

    lemma AnswerByValues(vbo: nat, r: Answer, ds: seq<nat>)
      requires Mounted() && AnswersForChain(vbo, r) && LiesAt(ds) && |ds| * vcb.bytesPerCluster < 0x1_0000_0000
      ensures if vbo < |ds| * vcb.bytesPerCluster then PlaceOf(vcb.fileAreaLbo, vcb.bytesPerCluster, ds, vbo, r) else r == NotAllocated
    {
      hide *;
      ReadableByValues(ds);
      SpanIs(vcb.bytesPerCluster, |ds|);
      ClustersNarrow(ds);
      AnswerForOne(vbo, r, ds);
      if vbo < |ds| * vcb.bytesPerCluster {
        AnswerIs(vcb.fileAreaLbo, vcb.bytesPerCluster, ds, vbo, r);
      }
    }

    lemma AnswerForOne(vbo: nat, r: Answer, ds: seq<nat>)
      requires AnswersForChain(vbo, r) && Readable(ds) && Span(vcb.bytesPerCluster, |ds|) < 0x1_0000_0000
      ensures vcb.bytesPerCluster > 0 ==>
        if vbo < Span(vcb.bytesPerCluster, |ds|) then Answers(vcb.fileAreaLbo, vcb.bytesPerCluster, ds, vbo, r) else r == NotAllocated
    {
      hide Readable;
      hide Answers;
    }

    lemma ClustersNarrow(ds: seq<nat>)
      requires Mounted() && LiesAt(ds)
      ensures vcb.bytesPerCluster > 0 && forall i :: 0 <= i < |ds| ==> 2 <= ds[i] < 0x1000_0000
    {
    }

    lemma ByValues(vbo: nat, r: Answer)
      requires Mounted() && AnswersForChain(vbo, r)
      ensures vcb.bytesPerCluster > 0 && AnswersByValues(vbo, r)
    {
      hide LiesAt;
      hide PlaceOf;
      hide AnswersForChain;
      forall ds | LiesAt(ds) && |ds| * vcb.bytesPerCluster < 0x1_0000_0000
        ensures if vbo < |ds| * vcb.bytesPerCluster then PlaceOf(vcb.fileAreaLbo, vcb.bytesPerCluster, ds, vbo, r) else r == NotAllocated
      {
        AnswerByValues(vbo, r, ds);
      }
    }

    lemma LookupAnswers(vbo: nat, r: Answer)
      requires Mounted() && MapOk()
      requires r.Extent? ==> vbo < Span(vcb.bytesPerCluster, |mcb|)
      requires r.Extent? && Span(vcb.bytesPerCluster, |mcb|) < 0x1_0000_0000 ==> Answers(vcb.fileAreaLbo, vcb.bytesPerCluster, mcb, vbo, r)
      requires r.NotAllocated? ==> (mcb == [] && firstCluster == 0) || EndsBefore(vbo)
      requires r.Corrupt? ==> forall ds :: !Readable(ds)
      ensures AnswersForChain(vbo, r) && AnswersByValues(vbo, r)
    {
      forall ds | Readable(ds) && Span(vcb.bytesPerCluster, |ds|) < 0x1_0000_0000
        ensures if vbo < Span(vcb.bytesPerCluster, |ds|) then Answers(vcb.fileAreaLbo, vcb.bytesPerCluster, ds, vbo, r) else r == NotAllocated
      {
        LookupAnswersFor(vbo, r, ds);
      }
      ByValues(vbo, r);
    }

    lemma LookupAnswersFor(vbo: nat, r: Answer, ds: seq<nat>)
      requires Mounted() && MapOk() && !r.Corrupt?
      requires r.Extent? ==> vbo < Span(vcb.bytesPerCluster, |mcb|)
      requires r.Extent? && Span(vcb.bytesPerCluster, |mcb|) < 0x1_0000_0000 ==> Answers(vcb.fileAreaLbo, vcb.bytesPerCluster, mcb, vbo, r)
      requires r.NotAllocated? ==> (mcb == [] && firstCluster == 0) || EndsBefore(vbo)
      requires Readable(ds) && Span(vcb.bytesPerCluster, |ds|) < 0x1_0000_0000
      ensures if vbo < Span(vcb.bytesPerCluster, |ds|) then Answers(vcb.fileAreaLbo, vcb.bytesPerCluster, ds, vbo, r) else r == NotAllocated
    {
      assert InHeap(ds, |vcb.fat.entries| - 2);
      assert firstCluster != 0;
      hide IsChain;
      hide CutAtRun;
      MapAnswersForChain(vbo, r, ds);
      SpanMonotone(vcb.bytesPerCluster, |mcb|, |ds|);
      BelowFourGigabytes(vcb.bytesPerCluster, |ds|);
    }

    /** FatLookupFileAllocation. */
    method LookupFileAllocation(vbo: nat) returns (r: Answer, endOnMax: bool, ghost steps: nat)
      requires Mounted() && MapOk() && vbo < 0x1_0000_0000
      modifies `mcb, `allocationSize
      ensures MapOk() && StepsWithin(steps) && (allocationSize == old(allocationSize) || SizeKnown()) && |old(mcb)| <= |mcb|
      ensures vbo < LowPart(old(allocationSize)) ==> AnswersForChain(vbo, r) && AnswersByValues(vbo, r)
      ensures r.Extent? ==> vbo < Span(vcb.bytesPerCluster, |mcb|) && (vbo == MAXULONG - 1 ==> vbo < Span(vcb.bytesPerCluster, |old(mcb)|))
      ensures r.Extent? && Span(vcb.bytesPerCluster, |mcb|) < 0x1_0000_0000 ==> Answers(vcb.fileAreaLbo, vcb.bytesPerCluster, mcb, vbo, r)
      ensures r.NotAllocated? ==> vbo >= LowPart(old(allocationSize)) || (mcb == [] && firstCluster == 0) || EndsBefore(vbo)
      ensures r.NotAllocated? && vbo == MAXULONG - 1 < LowPart(old(allocationSize)) && firstCluster != 0 ==> SizeKnown()
      ensures r.Corrupt? ==> Span(vcb.bytesPerCluster, |mcb|) <= vbo && forall ds :: !Readable(ds)
      ensures vbo >= LowPart(old(allocationSize)) ==> !r.Corrupt? && allocationSize == old(allocationSize) && mcb == old(mcb)
    {
      hide LiesAt;
      hide PlaceOf;
      hide AnswersByValues;
      hide IsChain;
      var found;
      found, r := LookupMcbEntry(vcb, mcb, vbo);
      endOnMax, steps := false, 0;
      if found {
        endOnMax := (vbo + r.byteCount) % 0x1_0000_0000 == 0;
        LookupAnswers(vbo, r);
        return;
      }
      if vbo >= LowPart(allocationSize) {
        return NotAllocated, false, 0;
      }
      var mapped, w;
      ghost var path;
      mapped, w, path := StartWalk(vbo);
      if !mapped {
        LookupAnswers(vbo, NotAllocated);
        return NotAllocated, false, 0;
      }
      var status;
      status, w, endOnMax, steps := Walk(vbo, w, path);
      r := Answered(vbo, status, w);
      LookupAnswers(vbo, r);
    }

    /** The outcome of a walk. */
    method Answered(vbo: nat, status: Progress, w: Walker) returns (r: Answer)
      requires Mounted() && MapOk() && !status.Going? && (status.Found? ==> Located(vbo, w))
      ensures r.Extent? <==> status.Found?
      ensures r.NotAllocated? <==> status.Missing?
      ensures r.Extent? && Span(vcb.bytesPerCluster, |mcb|) < 0x1_0000_0000 ==> Answers(vcb.fileAreaLbo, vcb.bytesPerCluster, mcb, vbo, r)
    {
      match status
      case Missing => r := NotAllocated;
      case Broken => r := Corrupt;
      case Found =>
        LocatedRuns(vbo, w);
        if Span(vcb.bytesPerCluster, |mcb|) < 0x1_0000_0000 {
          LocatedAnswers(vbo, w);
        }
        r := Extent(w.firstLbo + (vbo - w.firstVbo), w.currentVbo - vbo, w.runs - 1);
    }

    /** The fields of the file agree with the FAT as far as they are filled in. */
    ghost predicate Ok()
      reads this, vcb, vcb.fat, vcb.fat.units
    {
      && Mounted() && MapOk() && fileSize <= MAXULONG
      && if firstCluster == 0 then allocationSize == 0 && mcb == []
         else if allocationSize == FCB_LOOKUP_ALLOCATIONSIZE_HINT then Span(vcb.bytesPerCluster, |mcb|) < 0x1_0000_0000
         else SizeKnown()
    }

    /** A map that is the file's whole chain is in order. */
    lemma ChainIsMapped()
      requires Mounted() && Readable(mcb)
      ensures MapOk() && firstCluster != 0
    {
      ChainIsCut(vcb.fat.bits, vcb.fat.entries, mcb);
      Stuck(mcb, mcb);
      SpanMonotone(vcb.bytesPerCluster, |mcb| - 1, |mcb|);
      SpanMonotone(vcb.bytesPerCluster, |mcb| - 1, vcb.fat.numberOfClusters);
      assert InHeap(mcb, |vcb.fat.entries| - 2);
    }

    /** FatLookupFileAllocationSize: fails on a file without a readable chain, and on one whose size exceeds its chain. */
    method LookupFileAllocationSize() returns (ok: bool)
      requires Ok() && allocationSize == FCB_LOOKUP_ALLOCATIONSIZE_HINT
      modifies `mcb, `allocationSize
      ensures Ok() && (ok ==> SizeKnown())
      ensures ok <==> exists ds :: Readable(ds) && fileSize <= AllocatedBytes(vcb.bytesPerCluster, |ds|)
    {
      var r, endOnMax;
      ghost var steps;
      r, endOnMax, steps := LookupFileAllocation(MAXULONG - 1);
      if r.Corrupt? {
        return false;
      }
      if r.Extent? {
        BelowFourGigabytes(vcb.bytesPerCluster, |old(mcb)|);
        assert false;
      }
      ok := fileSize <= LowPart(allocationSize);
      if SizeKnown() {
        forall ds | Readable(ds) ensures ds == mcb {
          MapAnswersForChain(0, r, ds);
        }
      }
    }
  }
}
