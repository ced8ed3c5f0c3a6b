/**
  Any number of files of a volume, grown, cut and looked up in any order: every run
  map stays a part of its file's chain, and no two chains ever share a cluster.
 */
module FileRuns {
  import opened FatEntries
  import opened FatTable
  import opened Books
  import opened Volume
  import opened Allocation
  import opened Sizes
  import opened FileMap
  import opened FileAllocation
  import opened FileGrowth

  datatype Request = GrowTo(file: nat, size: nat) | TruncateTo(file: nat, size: nat) | LookUp(file: nat, vbo: nat)

  /** Two chains have no cluster in common. */
  ghost predicate Disjoint(a: seq<nat>, b: seq<nat>) {
    forall i, j {:trigger a[i], b[j]} :: 0 <= i < |a| && 0 <= j < |b| ==> a[i] != b[j]
  }

  /** A file, its fields, and its chain; a file whose size is not known yet is smaller than 4 GB. */
  ghost predicate FileOk(vcb: Vcb, file: Fcb, chain: seq<nat>)
    reads file, file.vcb, file.vcb.fat, file.vcb.fat.units
  {
    && file.vcb == vcb && file.Ok() && ChainOf(file, chain)
    && (file.allocationSize == FCB_LOOKUP_ALLOCATIONSIZE_HINT ==> Span(vcb.bytesPerCluster, |chain|) < 0x1_0000_0000)
  }

  /** The files of a volume, with chains of their own. */
  ghost predicate FilesOk(vcb: Vcb, files: seq<Fcb>, chains: seq<seq<nat>>)
    reads vcb, vcb.bitmap, vcb.windows, vcb.fat, vcb.fat.units, files
  {
    && vcb.Valid() && |chains| == |files| && (forall i, j :: 0 <= i < j < |files| ==> files[i] != files[j])
    && (forall i :: 0 <= i < |files| ==> files[i].vcb == vcb && FileOk(vcb, files[i], chains[i]))
    && (forall i, j :: 0 <= i < j < |files| ==> Disjoint(chains[i], chains[j]))
  }

  /** The fields of a file, as a value. */
  datatype Fields = Fields(firstCluster: nat, allocationSize: int, fileSize: nat, mcb: seq<nat>)

  ghost function FieldsOf(file: Fcb): Fields
    reads file
  {
    Fields(file.firstCluster, file.allocationSize, file.fileSize, file.mcb)
  }

  ghost function AllFields(files: seq<Fcb>): seq<Fields>
    reads files
  {
    seq(|files|, k requires 0 <= k < |files| reads files => FieldsOf(files[k]))
  }

  /** FileOk, for given entries and fields. */
  ghost predicate FieldsOk(file: Fcb, e: seq<nat>, f: Fields, chain: seq<nat>) {
    && f.firstCluster < 0x1_0000_0000 && f.fileSize <= MAXULONG && ChainAt(file, e, f.firstCluster, chain)
    && file.vcb.bytesPerCluster > 1 && DividesFourGigabytes(file.vcb.bytesPerCluster) && file.vcb.fileAreaLbo > 0
    && (forall i {:trigger f.mcb[i]} :: 0 <= i < |f.mcb| ==> 2 <= f.mcb[i] < 0x1000_0000)
    && (f.mcb != [] ==> f.mcb[0] == f.firstCluster && CutAtRun(file.vcb.fat.bits, e, f.mcb) && (|f.mcb| > 1 ==> !file.TooFar(|f.mcb| - 1)))
    && (f.allocationSize == FCB_LOOKUP_ALLOCATIONSIZE_HINT ==> Span(file.vcb.bytesPerCluster, |chain|) < 0x1_0000_0000)
    && if f.firstCluster == 0 then f.allocationSize == 0 && f.mcb == []
       else if f.allocationSize == FCB_LOOKUP_ALLOCATIONSIZE_HINT then Span(file.vcb.bytesPerCluster, |f.mcb|) < 0x1_0000_0000
       else ChainAt(file, e, f.firstCluster, f.mcb) && f.allocationSize == AllocatedBytes(file.vcb.bytesPerCluster, |f.mcb|)
  }

  lemma FileOkByFields(file: Fcb, chain: seq<nat>)
    ensures FileOk(file.vcb, file, chain) <==> file.vcb.fat.Valid() && FieldsOk(file, file.vcb.fat.entries, FieldsOf(file), chain)
  {
    hide IsChain;
    hide CutAtRun;
  }

  /** A file that is not touched keeps its chain and its fields in order when no cluster of the chain changes. */
  lemma FieldsKept(file: Fcb, e: seq<nat>, e': seq<nat>, f: Fields, chain: seq<nat>, owned: seq<nat>)
    requires FieldsOk(file, e, f, chain) && Disjoint(chain, owned) && KeptBut(e, e', owned)
    requires |e'| == |e| && forall i :: 0 <= i < |e'| ==> e'[i] < EntryLimit(file.vcb.fat.bits)
    ensures FieldsOk(file, e', f, chain)
  {
    if f.firstCluster != 0 {
      ChainKept(file.vcb.fat.bits, e, e', owned, chain);
      if f.mcb != [] {
        PathAlongChain(file.vcb.fat.bits, e, f.mcb, chain);
        PathKept(file.vcb.fat.bits, e, e', owned, chain, |f.mcb|);
      }
      if f.allocationSize != FCB_LOOKUP_ALLOCATIONSIZE_HINT {
        ChainUnique(file.vcb.fat.bits, e, f.mcb, chain);
      }
    }
  }

  lemma PathKept(bits: IndexBits, e: seq<nat>, e': seq<nat>, owned: seq<nat>, chain: seq<nat>, n: nat)
    requires IsChain(bits, e, chain) && KeptBut(e, e', owned) && Disjoint(chain, owned) && 0 < n <= |chain|
    requires CutAtRun(bits, e, chain[..n])
    ensures CutAtRun(bits, e', chain[..n])
  {
    forall i | 0 <= i < n ensures e'[chain[i]] == e[chain[i]] {
      ChainInUse(bits, e, chain, i);
    }
    var cs := chain[..n];
    forall i | 0 <= i < |cs| - 1
      ensures 2 <= cs[i] < |e'| && e'[cs[i]] == cs[i + 1] && e'[cs[i]] < EntryLimit(bits) && InterpretClusterType(bits, e'[cs[i]]) == Next
    {
      assert e[cs[i]] == cs[i + 1];
    }
  }

  /** FilesOk, for given entries and fields, as far as the files are concerned. */
  ghost predicate FilesWere(vcb: Vcb, files: seq<Fcb>, chains: seq<seq<nat>>, e: seq<nat>, was: seq<Fields>) {
    && |chains| == |files| == |was| && (forall i, j :: 0 <= i < j < |files| ==> files[i] != files[j])
    && (forall i {:trigger was[i]} :: 0 <= i < |files| ==> files[i].vcb == vcb && FieldsOk(files[i], e, was[i], chains[i]))
    && (forall i, j :: 0 <= i < j < |files| ==> Disjoint(chains[i], chains[j]))
  }

  lemma FilesAsFields(vcb: Vcb, files: seq<Fcb>, chains: seq<seq<nat>>)
    requires FilesOk(vcb, files, chains)
    ensures FilesWere(vcb, files, chains, vcb.fat.entries, AllFields(files))
  {
    var was := AllFields(files);
    forall i | 0 <= i < |files| ensures files[i].vcb == vcb && FieldsOk(files[i], vcb.fat.entries, was[i], chains[i]) {
      FileOkByFields(files[i], chains[i]);
    }
    hide FieldsOk;
    hide FileOk;
  }

  /** All files but one are in order, and what that one has taken is not theirs. */
  ghost predicate OthersOk(vcb: Vcb, files: seq<Fcb>, chains: seq<seq<nat>>, i: nat)
    reads vcb, vcb.bitmap, vcb.windows, vcb.fat, vcb.fat.units, files
  {
    && vcb.Valid() && i < |files| == |chains| && (forall j, k :: 0 <= j < k < |files| ==> files[j] != files[k])
    && (forall k :: 0 <= k < |files| && k != i ==> files[k].vcb == vcb && FileOk(vcb, files[k], chains[k]))
    && (forall j, k :: 0 <= j < k < |files| ==> Disjoint(chains[j], chains[k]))
  }

  /** After one file has changed, with only clusters of its own chain and free clusters involved, all other files are in order. */
  lemma OthersKept(vcb: Vcb, files: seq<Fcb>, chains: seq<seq<nat>>, i: nat, chain: seq<nat>, e: seq<nat>, was: seq<Fields>)
    requires FilesWere(vcb, files, chains, e, was) && vcb.Valid()
    requires i < |files| && OnlyOwn(vcb, chains[i], chain, e) && |e| == |vcb.fat.entries|
    requires forall k :: 0 <= k < |files| && k != i ==> FieldsOf(files[k]) == was[k]
    ensures OthersOk(vcb, files, chains[i := chain], i)
  {
    var chains' := chains[i := chain];
    vcb.fat.EntriesBounded();
    forall k | 0 <= k < |files| && k != i
      ensures files[k].vcb == vcb && FileOk(vcb, files[k], chains'[k]) && Disjoint(chain, chains'[k]) && Disjoint(chains'[k], chain)
    {
      assert files[k].vcb == vcb && FieldsOk(files[k], e, was[k], chains[k]);
      assert if i < k then Disjoint(chains[i], chains[k]) else Disjoint(chains[k], chains[i]);
      OtherKept(vcb, files[k], chains[k], chains[i], chain, e, was[k]);
    }
    hide FieldsOk;
    hide FileOk;
    hide OnlyOwn;
    hide InOrder;
    hide UsedBits;
    hide Disjoint;
  }

  /** If the changed file is in order as well, all files are. */
  lemma FilesKept(vcb: Vcb, files: seq<Fcb>, chains: seq<seq<nat>>, i: nat, chain: seq<nat>, e: seq<nat>, was: seq<Fields>)
    requires FilesWere(vcb, files, chains, e, was) && vcb.Valid()
    requires i < |files| && OnlyOwn(vcb, chains[i], chain, e) && |e| == |vcb.fat.entries|
    requires forall k :: 0 <= k < |files| && k != i ==> FieldsOf(files[k]) == was[k]
    requires FileOk(vcb, files[i], chain)
    ensures FilesOk(vcb, files, chains[i := chain])
  {
    OthersKept(vcb, files, chains, i, chain, e, was);
    hide FieldsOk;
    hide FileOk;
    hide OnlyOwn;
    hide InOrder;
    hide UsedBits;
    hide Disjoint;
  }

  lemma OtherKept(vcb: Vcb, file: Fcb, other: seq<nat>, owned: seq<nat>, chain: seq<nat>, e: seq<nat>, was: Fields)
    requires file.vcb == vcb && FieldsOk(file, e, was, other) && FieldsOf(file) == was && vcb.fat.Valid()
    requires Disjoint(owned, other) || Disjoint(other, owned)
    requires OnlyOwn(vcb, owned, chain, e) && |e| == |vcb.fat.entries|
    requires forall i :: 0 <= i < |vcb.fat.entries| ==> vcb.fat.entries[i] < EntryLimit(vcb.fat.bits)
    ensures FileOk(vcb, file, other) && Disjoint(chain, other) && Disjoint(other, chain)
  {
    assert Disjoint(owned, other) && Disjoint(other, owned);
    FieldsKept(file, e, vcb.fat.entries, was, other, owned);
    FileOkByFields(file, other);
    forall a, b {:trigger chain[a], other[b]} | 0 <= a < |chain| && 0 <= b < |other| ensures chain[a] != other[b] {
      ChainInUse(vcb.fat.bits, e, other, b);
      assert chain[a] in chain;
    }
  }

  /** A grown file is in order exactly when all its links can be read back. */
  lemma GrownFileOk(file: Fcb, size: nat, chain: seq<nat>, added: seq<nat>, e: seq<nat>, f: Fields, free: nat)
    requires FieldsOk(file, e, f, chain) && 2 <= |e| <= EntryLimit(file.vcb.fat.bits) && size <= MAXULONG && file.fileSize == f.fileSize
    requires forall i :: 0 <= i < |e| ==> e[i] < EntryLimit(file.vcb.fat.bits)
    requires GrownTo(file, size, chain, added, e, free)
    ensures FileOk(file.vcb, file, chain + added) <==> Linkable(file.vcb.fat.bits, chain + added)
    ensures OnlyOwn(file.vcb, chain, chain + added, e) && InHeap(chain + added, |e| - 2)
  {
    hide *;
    GrownIs(file, size, chain, added, e, free);
    GrownFrom(file, e, f, chain);
    MountedAt(file, e, f, chain);
    GrewReadable(file.vcb.fat.bits, e, file.vcb.fat.entries, chain, added);
    GrownSize(file.vcb.bytesPerCluster, |chain|, size);
    if Linkable(file.vcb.fat.bits, chain + added) {
      GrownReadable(file, chain + added);
      MappedFileOk(file);
    } else if FileOk(file.vcb, file, chain + added) {
      OnlyReadable(file, chain + added);
    }
    OwnAndNew(file.vcb, chain, added, e);
  }

  lemma GrewReadable(bits: IndexBits, e: seq<nat>, e': seq<nat>, chain: seq<nat>, added: seq<nat>)
    requires Grew(bits, e, e', chain, added) && (chain == [] || IsChain(bits, e, chain))
    requires 2 <= |e| <= EntryLimit(bits) && forall i :: 0 <= i < |e| ==> e[i] < EntryLimit(bits)
    ensures IsChain(bits, e', chain + added) <==> Linkable(bits, chain + added)
    ensures KeptBut(e, e', chain) && chain + added != [] && 2 <= (chain + added)[0] < 0x1_0000_0000
    ensures InHeap(chain + added, |e| - 2)
    ensures forall i :: 0 <= i < |added| ==> 2 <= added[i] < |e| && e[added[i]] == FAT_CLUSTER_AVAILABLE
  {
    GrewIsChain(bits, e, e', chain, added);
    assert chain != [] ==> InHeap(chain, |e| - 2);
    assert added != [];
    assert chain + added != [] && (chain + added)[0] == if chain == [] then added[0] else chain[0];
    hide IsChain;
    hide Grew;
    hide KeptBut;
  }

  lemma OnlyReadable(file: Fcb, cs: seq<nat>)
    requires FileOk(file.vcb, file, cs) && cs != []
    ensures IsChain(file.vcb.fat.bits, file.vcb.fat.entries, cs)
  {
    hide IsChain;
    hide CutAtRun;
  }

  lemma GrownIs(file: Fcb, size: nat, chain: seq<nat>, added: seq<nat>, e: seq<nat>, free: nat)
    requires GrownTo(file, size, chain, added, e, free)
    ensures file.vcb.fat.Valid() && file.vcb.bytesPerCluster > 0 && Span(file.vcb.bytesPerCluster, |chain|) < size
    ensures Grew(file.vcb.fat.bits, e, file.vcb.fat.entries, chain, added)
    ensures |chain + added| == |chain| + ClustersFor(file.vcb.bytesPerCluster, size - Span(file.vcb.bytesPerCluster, |chain|))
    ensures file.mcb == chain + added && (chain + added != [] ==> file.firstCluster == file.mcb[0])
    ensures file.allocationSize == AllocatedBytes(file.vcb.bytesPerCluster, |file.mcb|)
  {
    hide Grew;
    hide InOrder;
    hide UsedBits;
    hide AllocatedBytes;
    hide ClustersFor;
    hide DividesFourGigabytes;
  }

  lemma GrownFrom(file: Fcb, e: seq<nat>, f: Fields, chain: seq<nat>)
    requires FieldsOk(file, e, f, chain)
    ensures (chain == [] || IsChain(file.vcb.fat.bits, e, chain)) && f.fileSize <= MAXULONG
    ensures DividesFourGigabytes(file.vcb.bytesPerCluster) && MAXULONG < 0x1_0000_0000
  {
    hide IsChain;
    hide CutAtRun;
  }

  lemma MountedAt(file: Fcb, e: seq<nat>, f: Fields, chain: seq<nat>)
    requires FieldsOk(file, e, f, chain) && file.vcb.fat.Valid()
    ensures file.firstCluster < 0x1_0000_0000 ==> file.Mounted()
  {
    hide IsChain;
    hide CutAtRun;
  }

  lemma GrownReadable(file: Fcb, cs: seq<nat>)
    requires file.mcb == cs != [] && file.firstCluster == cs[0] && IsChain(file.vcb.fat.bits, file.vcb.fat.entries, cs)
    requires Span(file.vcb.bytesPerCluster, |cs|) <= 0x1_0000_0000
    ensures file.Readable(file.mcb)
  {
    hide IsChain;
  }

  lemma OwnAndNew(vcb: Vcb, chain: seq<nat>, added: seq<nat>, e: seq<nat>)
    requires KeptBut(e, vcb.fat.entries, chain)
    requires forall i :: 0 <= i < |added| ==> 2 <= added[i] < |e| && e[added[i]] == FAT_CLUSTER_AVAILABLE
    ensures OnlyOwn(vcb, chain, chain + added, e)
  {
    hide KeptBut;
  }

  /** A cut file is in order. */
  lemma CutFileOk(file: Fcb, chain: seq<nat>, kept: nat, e: seq<nat>, f: Fields)
    requires FieldsOk(file, e, f, chain) && file.vcb.fat.Valid() && file.fileSize == f.fileSize && kept < |chain|
    requires CutAt(file.vcb.fat.bits, e, file.vcb.fat.entries, chain, kept)
    requires file.mcb == chain[..kept] && file.firstCluster == if kept == 0 then 0 else f.firstCluster
    requires file.allocationSize == Span(file.vcb.bytesPerCluster, kept) < 0x1_0000_0000
    ensures FileOk(file.vcb, file, chain[..kept]) && OnlyOwn(file.vcb, chain, chain[..kept], e)
  {
    CutChainOk(file, chain, kept, e, f);
    MountedByFields(file, chain, e, f);
    hide IsChain;
    hide CutAt;
    hide KeptBut;
    hide FieldsOk;
    hide CutAtRun;
    if kept > 0 {
      MappedFileOk(file);
    }
  }

  lemma MountedByFields(file: Fcb, chain: seq<nat>, e: seq<nat>, f: Fields)
    requires FieldsOk(file, e, f, chain) && file.vcb.fat.Valid() && (file.firstCluster == 0 || file.firstCluster == f.firstCluster)
    ensures file.Mounted() && f.fileSize <= MAXULONG
  {
    hide IsChain;
    hide CutAtRun;
  }

  /** A file whose map is its whole chain, and whose size is that of the map, is in order. */
  lemma MappedFileOk(file: Fcb)
    requires file.Mounted() && file.Readable(file.mcb) && file.fileSize <= MAXULONG
    requires file.allocationSize == AllocatedBytes(file.vcb.bytesPerCluster, |file.mcb|)
    ensures FileOk(file.vcb, file, file.mcb)
  {
    file.ChainIsMapped();
    hide IsChain;
    hide CutAtRun;
    hide DividesFourGigabytes;
  }

  lemma CutChainOk(file: Fcb, chain: seq<nat>, kept: nat, e: seq<nat>, f: Fields)
    requires FieldsOk(file, e, f, chain) && kept < |chain| && CutAt(file.vcb.fat.bits, e, file.vcb.fat.entries, chain, kept)
    requires file.firstCluster == if kept == 0 then 0 else f.firstCluster
    requires Span(file.vcb.bytesPerCluster, kept) < 0x1_0000_0000
    ensures ChainOf(file, chain[..kept]) && KeptBut(e, file.vcb.fat.entries, chain)
    ensures kept > 0 ==> file.firstCluster != 0
  {
    CutIsChain(file.vcb.fat.bits, e, file.vcb.fat.entries, chain, kept);
    hide CutAtRun;
    hide CutAt;
  }

  /** A map that is at least as long as a chain is the chain. */
  lemma WholeMap(file: Fcb, chain: seq<nat>)
    requires file.MapOk() && file.vcb.bytesPerCluster > 0 && ChainOf(file, chain) && file.firstCluster != 0
    ensures |file.mcb| <= |chain| && (|file.mcb| == |chain| ==> file.mcb == chain)
  {
    if file.mcb != [] {
      PathAlongChain(file.vcb.fat.bits, file.vcb.fat.entries, file.mcb, chain);
    }
  }

  /** Looking a byte up in a file answers for its chain, and leaves the file in order. */
  method LookUpOne(file: Fcb, vbo: nat, ghost chain: seq<nat>) returns (r: Answer)
    requires FileOk(file.vcb, file, chain) && vbo <= MAXULONG
    modifies file`mcb, file`allocationSize
    ensures FileOk(file.vcb, file, chain) && AnswersIn(file.vcb, vbo, chain, r)
  {
    FileOkByFields(file, chain);
    ghost var f := FieldsOf(file);
    assert file.Ok() && file.Mounted() && file.MapOk() && file.allocationSize == f.allocationSize;
    hide *;
    var endOnMax;
    ghost var steps;
    r, endOnMax, steps := file.LookupFileAllocation(vbo);
    AfterLookup(file, vbo, chain, r, f);
  }

  /** A lookup only adds to the map, and perhaps records the size. */
  lemma AfterLookup(file: Fcb, vbo: nat, chain: seq<nat>, r: Answer, f: Fields)
    requires FieldsOk(file, file.vcb.fat.entries, f, chain) && file.vcb.fat.Valid() && file.MapOk()
    requires file.firstCluster == f.firstCluster && file.fileSize == f.fileSize && |f.mcb| <= |file.mcb|
    requires file.allocationSize == f.allocationSize || file.SizeKnown()
    requires vbo < 0x1_0000_0000 && if vbo < LowPart(f.allocationSize) then file.AnswersForChain(vbo, r) else !r.Corrupt? && file.mcb == f.mcb
    requires r.Extent? ==> vbo < Span(file.vcb.bytesPerCluster, |file.mcb|)
    ensures FileOk(file.vcb, file, chain) && AnswersIn(file.vcb, vbo, chain, r)
  {
    hide IsChain;
    hide CutAtRun;
    if file.firstCluster != 0 {
      WholeMap(file, chain);
      SpanMonotone(file.vcb.bytesPerCluster, |file.mcb|, |chain|);
      if f.allocationSize != FCB_LOOKUP_ALLOCATIONSIZE_HINT {
        FieldsKnown(file, f, chain);
      }
    }
  }

  lemma FieldsKnown(file: Fcb, f: Fields, chain: seq<nat>)
    requires FieldsOk(file, file.vcb.fat.entries, f, chain) && f.firstCluster != 0 && f.allocationSize != FCB_LOOKUP_ALLOCATIONSIZE_HINT
    ensures f.mcb == chain
  {
    ChainUnique(file.vcb.fat.bits, file.vcb.fat.entries, f.mcb, chain);
  }

  /** The answer of a lookup in a chain below 4 GB, which is empty for a file without clusters. */
  ghost predicate AnswersIn(vcb: Vcb, vbo: nat, chain: seq<nat>, r: Answer) {
    Span(vcb.bytesPerCluster, |chain|) < 0x1_0000_0000 ==>
      if vbo < Span(vcb.bytesPerCluster, |chain|) then Answers(vcb.fileAreaLbo, vcb.bytesPerCluster, chain, vbo, r) else r == NotAllocated
  }

  method LookUpIn(vcb: Vcb, files: seq<Fcb>, i: nat, vbo: nat, ghost chains: seq<seq<nat>>) returns (r: Answer)
    requires FilesOk(vcb, files, chains) && i < |files| && vbo <= MAXULONG
    modifies files[i]
    ensures FilesOk(vcb, files, chains) && AnswersIn(vcb, vbo, chains[i], r)
  {
    hide *;
    FilesSay(vcb, files, chains, i);
    ghost var e, was := vcb.fat.entries, AllFields(files);
    KeptItself(vcb, e, chains[i]);
    r := LookUpOne(files[i], vbo, chains[i]);
    assert chains == chains[i := chains[i]];
    FilesKept(vcb, files, chains, i, chains[i], e, was);
  }

  /** What files in order mean for one of them, and for the fields of all. */
  lemma FilesSay(vcb: Vcb, files: seq<Fcb>, chains: seq<seq<nat>>, i: nat)
    requires FilesOk(vcb, files, chains) && i < |files|
    ensures vcb.Valid() && vcb.fat.Valid() && |chains| == |files| && files[i].vcb == vcb && FileOk(vcb, files[i], chains[i])
    ensures forall k :: 0 <= k < |files| && k != i ==> files[k] != files[i]
    ensures |AllFields(files)| == |files| && forall k :: 0 <= k < |files| ==> AllFields(files)[k] == FieldsOf(files[k])
    ensures FilesWere(vcb, files, chains, vcb.fat.entries, AllFields(files)) && |vcb.fat.entries| == vcb.fat.numberOfClusters + 2
    ensures vcb.bytesPerCluster > 0
  {
    FilesAsFields(vcb, files, chains);
    FileOkByFields(files[i], chains[i]);
    hide FileOk;
    hide FieldsOf;
    hide FilesWere;
    hide InOrder;
    hide UsedBits;
    hide Disjoint;
    hide ChainAt;
    hide CutAtRun;
  }

  /** What a change of one file means for the FAT: only its own chain and clusters that were free are involved. */
  ghost predicate OnlyOwn(vcb: Vcb, chain: seq<nat>, chain': seq<nat>, e: seq<nat>)
    reads vcb, vcb.fat
  {
    && KeptBut(e, vcb.fat.entries, chain)
    && forall c :: c in chain' ==> c in chain || (c < |e| && e[c] == FAT_CLUSTER_AVAILABLE)
  }

  lemma KeptItself(vcb: Vcb, e: seq<nat>, cs: seq<nat>)
    requires vcb.fat.entries == e
    ensures OnlyOwn(vcb, cs, cs, e)
  {
  }

  /** The size of a file is not known yet, and its chain is too short for its bytes. */
  ghost predicate SizeLostOf(bytesPerCluster: nat, f: Fields, chain: seq<nat>) {
    f.allocationSize == FCB_LOOKUP_ALLOCATIONSIZE_HINT && AllocatedBytes(bytesPerCluster, |chain|) < f.fileSize
  }

  lemma SizeLostIs(file: Fcb, chain: seq<nat>)
    requires FileOk(file.vcb, file, chain)
    ensures SizeLost(file) <==> SizeLostOf(file.vcb.bytesPerCluster, FieldsOf(file), chain)
  {
    if file.firstCluster != 0 {
      assert file.Readable(chain);
      forall ds | file.Readable(ds) ensures ds == chain {
        ChainUnique(file.vcb.fat.bits, file.vcb.fat.entries, ds, chain);
      }
    }
    hide IsChain;
    hide CutAtRun;
  }

  /** What a request to grow a file comes to. */
  ghost function Outcome(vcb: Vcb, space: Space, f: Fields, chain: seq<nat>, size: nat): Growth
    requires vcb.bytesPerCluster > 0
  {
    if SizeLostOf(vcb.bytesPerCluster, f, chain) then Unreadable else Granted(vcb, space, chain, size)
  }

  /** Growing a file: its chain becomes as long as the size calls for, and starts with what it was. */
  method GrowOne(file: Fcb, size: nat, ghost chain: seq<nat>) returns (r: Growth, ghost chain': seq<nat>)
    requires FileOk(file.vcb, file, chain) && file.vcb.Valid() && size <= MAXULONG
    modifies file, file.vcb, file.vcb.bitmap, file.vcb.windows, file.vcb.fat, file.vcb.fat.units
    ensures r == old(Outcome(file.vcb, SpaceOf(file.vcb), FieldsOf(file), chain, size))
    ensures !r.Halted? ==>
      && file.vcb.Valid() && (file.vcb.bitmap == old(file.vcb.bitmap) || fresh(file.vcb.bitmap))
      && OnlyOwn(file.vcb, chain, chain', old(file.vcb.fat.entries))
      && (FileOk(file.vcb, file, chain') <==> (r.Grown? ==> Linkable(file.vcb.fat.bits, chain')))
      && file.vcb.numberOfFreeClusters + |chain'| == old(file.vcb.numberOfFreeClusters) + |chain|
      && (r.Grown? ==> InHeap(chain', file.vcb.fat.numberOfClusters))
    ensures if r.Grown?
      then chain < chain' == file.mcb && Span(file.vcb.bytesPerCluster, |chain'| - 1) < size <= Span(file.vcb.bytesPerCluster, |chain'|)
      else r.Halted? || (chain' == chain && file.vcb.fat.entries == old(file.vcb.fat.entries))
  {
    hide *;
    ghost var e, f, free := file.vcb.fat.entries, FieldsOf(file), file.vcb.numberOfFreeClusters;
    StartsOk(file, chain);
    SizeLostIs(file, chain);
    OutcomeIs(file.vcb, SpaceOf(file.vcb), f, chain, size);
    ghost var added, chain0;
    r, chain0, added := AddFileAllocation(file, size);
    chain' := chain;
    if !r.Unreadable? {
      SameChain(file, e, f, chain, chain0);
    }
    if r.Grown? {
      GrownFileOk(file, size, chain, added, e, f, free);
      GrownLength(file, size, chain, added, e, free);
      chain' := chain + added;
    } else if !r.Halted? {
      AfterNothing(file, chain, e, f);
    }
  }

  lemma StartsOk(file: Fcb, chain: seq<nat>)
    requires FileOk(file.vcb, file, chain) && file.vcb.Valid()
    ensures FieldsOk(file, file.vcb.fat.entries, FieldsOf(file), chain)
    ensures file.Ok() && file.vcb.bytesPerCluster > 0
    ensures |file.vcb.fat.entries| == file.vcb.fat.numberOfClusters + 2
    ensures var e := file.vcb.fat.entries; 2 <= |e| <= EntryLimit(file.vcb.fat.bits) && forall i :: 0 <= i < |e| ==> e[i] < EntryLimit(file.vcb.fat.bits)
    ensures var f := FieldsOf(file); f.firstCluster == file.firstCluster && f.fileSize == file.fileSize && f.allocationSize == file.allocationSize
  {
    file.vcb.fat.EntriesBounded();
    FileOkByFields(file, chain);
    hide FieldsOk;
    hide IsChain;
    hide CutAtRun;
    hide InOrder;
  }

  lemma OutcomeIs(vcb: Vcb, space: Space, f: Fields, chain: seq<nat>, size: nat)
    requires vcb.bytesPerCluster > 0
    ensures SizeLostOf(vcb.bytesPerCluster, f, chain) ==> Outcome(vcb, space, f, chain, size) == Unreadable
    ensures !SizeLostOf(vcb.bytesPerCluster, f, chain) ==> Outcome(vcb, space, f, chain, size) == Granted(vcb, space, chain, size)
    ensures Granted(vcb, space, chain, size) != Unreadable
  {
    hide SizeLostOf;
    hide ClustersFor;
    hide StopsWith;
  }

  lemma GrownLength(file: Fcb, size: nat, chain: seq<nat>, added: seq<nat>, e: seq<nat>, free: nat)
    requires GrownTo(file, size, chain, added, e, free) && size <= MAXULONG && DividesFourGigabytes(file.vcb.bytesPerCluster)
    ensures file.vcb.Valid() && added != [] && chain < chain + added && file.vcb.numberOfFreeClusters + |chain + added| == free + |chain|
    ensures file.mcb == chain + added
    ensures Span(file.vcb.bytesPerCluster, |chain + added| - 1) < size <= Span(file.vcb.bytesPerCluster, |chain + added|)
  {
    GrownParts(file, size, chain, added, e, free);
    hide *;
    GrownSize(file.vcb.bytesPerCluster, |chain|, size);
    assert |chain + added| == |chain| + |added|;
  }

  lemma GrownParts(file: Fcb, size: nat, chain: seq<nat>, added: seq<nat>, e: seq<nat>, free: nat)
    requires GrownTo(file, size, chain, added, e, free)
    ensures file.vcb.Valid() && file.vcb.bytesPerCluster > 0 && Span(file.vcb.bytesPerCluster, |chain|) < size
    ensures |added| == ClustersFor(file.vcb.bytesPerCluster, size - Span(file.vcb.bytesPerCluster, |chain|))
    ensures file.vcb.numberOfFreeClusters == free - |added| && file.mcb == chain + added
  {
    hide Grew;
    hide InOrder;
    hide UsedBits;
    hide ClustersFor;
    hide AllocatedBytes;
  }

  lemma AfterNothing(file: Fcb, chain: seq<nat>, e: seq<nat>, f: Fields)
    requires FieldsOk(file, e, f, chain) && file.Ok() && file.vcb.fat.entries == e && file.firstCluster == f.firstCluster
    requires file.allocationSize == FCB_LOOKUP_ALLOCATIONSIZE_HINT ==> f.allocationSize == FCB_LOOKUP_ALLOCATIONSIZE_HINT
    ensures FileOk(file.vcb, file, chain) && OnlyOwn(file.vcb, chain, chain, e)
  {
    KeptItself(file.vcb, e, chain);
    hide IsChain;
    hide CutAtRun;
    hide KeptBut;
  }

  /** A file has one chain, and the bytes of a cluster divide 4 GB. */
  lemma SameChain(file: Fcb, e: seq<nat>, f: Fields, a: seq<nat>, b: seq<nat>)
    requires FieldsOk(file, e, f, a) && ChainAt(file, e, f.firstCluster, b)
    ensures a == b && DividesFourGigabytes(file.vcb.bytesPerCluster)
  {
    if f.firstCluster != 0 {
      ChainUnique(file.vcb.fat.bits, e, a, b);
    }
  }

  /** The number of clusters that hold a size. */
  function ClustersToHold(bytesPerCluster: nat, size: nat): nat
    requires bytesPerCluster > 0
  {
    if size == 0 then 0 else ClustersFor(bytesPerCluster, size)
  }

  /** Cutting a file: its chain keeps what holds the size. */
  method TruncateOne(file: Fcb, size: nat, ghost chain: seq<nat>) returns (r: Truncation, ghost chain': seq<nat>)
    requires FileOk(file.vcb, file, chain) && file.vcb.Valid() && size <= MAXULONG
    modifies file, file.vcb`clusterHint, file.vcb`used, file.vcb`numberOfFreeClusters, file.vcb.bitmap, file.vcb.windows, file.vcb.fat, file.vcb.fat.units
    ensures file.vcb.Valid() && FileOk(file.vcb, file, chain') && OnlyOwn(file.vcb, chain, chain', old(file.vcb.fat.entries))
    ensures r.SizeUnreadable? <==> old(SizeLostOf(file.vcb.bytesPerCluster, FieldsOf(file), chain))
    ensures r.Shortened? <==> !r.SizeUnreadable? && ClustersToHold(file.vcb.bytesPerCluster, size) < |chain|
    ensures if r.Shortened? then chain' == chain[..ClustersToHold(file.vcb.bytesPerCluster, size)]
      else chain' == chain && file.vcb.fat.entries == old(file.vcb.fat.entries)
    ensures file.vcb.numberOfFreeClusters + |chain'| == old(file.vcb.numberOfFreeClusters) + |chain|
  {
    hide *;
    ghost var e, f := file.vcb.fat.entries, FieldsOf(file);
    StartsOk(file, chain);
    SizeLostIs(file, chain);
    HoldIs(file.vcb.bytesPerCluster, size);
    ghost var kept := ClustersToHold(file.vcb.bytesPerCluster, size);
    ghost var chain0;
    r, chain0 := TruncateFileAllocation(file, size);
    chain' := chain;
    ValidFat(file.vcb);
    if !r.SizeUnreadable? {
      SameChain(file, e, f, chain, chain0);
    }
    if r.Shortened? {
      CutFileOk(file, chain, kept, e, f);
      chain' := chain[..kept];
    } else {
      AfterNothing(file, chain, e, f);
    }
  }

  lemma HoldIs(bytesPerCluster: nat, size: nat)
    requires bytesPerCluster > 0
    ensures ClustersToHold(bytesPerCluster, size) == if size == 0 then 0 else ClustersFor(bytesPerCluster, size)
  {
    hide ClustersFor;
  }

  lemma ValidFat(vcb: Vcb)
    requires vcb.Valid()
    ensures vcb.fat.Valid() && |vcb.fat.entries| == vcb.fat.numberOfClusters + 2
  {
    hide InOrder;
    hide UsedBits;
  }

  /** Everything a request may change: the file's fields, and the volume. */
  method GrowIn(vcb: Vcb, files: seq<Fcb>, i: nat, size: nat, ghost chains: seq<seq<nat>>) returns (r: Growth, ghost chain': seq<nat>)
    requires FilesOk(vcb, files, chains) && i < |files| && size <= MAXULONG
    modifies files[i], vcb, vcb.bitmap, vcb.windows, vcb.fat, vcb.fat.units
    ensures r == old(Outcome(vcb, SpaceOf(vcb), FieldsOf(files[i]), chains[i], size))
    ensures !r.Halted? ==>
      && (vcb.bitmap == old(vcb.bitmap) || fresh(vcb.bitmap)) && OthersOk(vcb, files, chains[i := chain'], i)
      && (FilesOk(vcb, files, chains[i := chain']) <==> (r.Grown? ==> Linkable(vcb.fat.bits, chain')))
      && vcb.numberOfFreeClusters + |chain'| == old(vcb.numberOfFreeClusters) + |chains[i]|
      && (r.Grown? ==> InHeap(chain', vcb.fat.numberOfClusters))
    ensures if r.Grown? then chains[i] < chain' == files[i].mcb && Span(vcb.bytesPerCluster, |chain'| - 1) < size <= Span(vcb.bytesPerCluster, |chain'|)
      else r.Halted? || (chain' == chains[i] && vcb.fat.entries == old(vcb.fat.entries))
  {
    hide *;
    FilesSay(vcb, files, chains, i);
    ghost var e, was := vcb.fat.entries, AllFields(files);
    r, chain' := GrowOne(files[i], size, chains[i]);
    if !r.Halted? {
      ValidFat(vcb);
      OthersKept(vcb, files, chains, i, chain', e, was);
      if FileOk(vcb, files[i], chain') {
        FilesKept(vcb, files, chains, i, chain', e, was);
      } else if FilesOk(vcb, files, chains[i := chain']) {
        FilesSay(vcb, files, chains[i := chain'], i);
      }
    }
  }

  /** What a request to cut a file comes to. */
  ghost function CutOutcome(bytesPerCluster: nat, f: Fields, chain: seq<nat>, size: nat): Truncation
    requires bytesPerCluster > 0
  {
    if SizeLostOf(bytesPerCluster, f, chain) then SizeUnreadable
    else if ClustersToHold(bytesPerCluster, size) < |chain| then Shortened else NotLonger
  }

  method TruncateIn(vcb: Vcb, files: seq<Fcb>, i: nat, size: nat, ghost chains: seq<seq<nat>>) returns (r: Truncation, ghost chain': seq<nat>)
    requires FilesOk(vcb, files, chains) && i < |files| && size <= MAXULONG
    modifies files[i], vcb`clusterHint, vcb`used, vcb`numberOfFreeClusters, vcb.bitmap, vcb.windows, vcb.fat, vcb.fat.units
    ensures FilesOk(vcb, files, chains[i := chain'])
    ensures r.SizeUnreadable? <==> old(SizeLostOf(vcb.bytesPerCluster, FieldsOf(files[i]), chains[i]))
    ensures r.Shortened? <==> !r.SizeUnreadable? && ClustersToHold(vcb.bytesPerCluster, size) < |chains[i]|
    ensures if r.Shortened? then chain' == chains[i][..ClustersToHold(vcb.bytesPerCluster, size)]
      else chain' == chains[i] && vcb.fat.entries == old(vcb.fat.entries)
    ensures vcb.numberOfFreeClusters + |chain'| == old(vcb.numberOfFreeClusters) + |chains[i]|
  {
    hide *;
    FilesSay(vcb, files, chains, i);
    ghost var e, was := vcb.fat.entries, AllFields(files);
    r, chain' := TruncateOne(files[i], size, chains[i]);
    ValidFat(vcb);
    FilesKept(vcb, files, chains, i, chain', e, was);
  }

  /** A request names a file, and sizes and offsets are 32 bits wide. */
  predicate WellFormed(request: Request, n: nat) {
    match request
    case GrowTo(file, size) => file < n && size <= MAXULONG
    case TruncateTo(file, size) => file < n && size <= MAXULONG
    case LookUp(file, vbo) => file < n && vbo <= MAXULONG
  }

  /** All that requests depend on and change: the books, the hint and the FAT of the volume, the fields of the files, and their chains. */
  datatype Snapshot = Snapshot(books: Books, clusterHint: int, entries: seq<nat>, fields: seq<Fields>, chains: seq<seq<nat>>)

  ghost function Now(vcb: Vcb, files: seq<Fcb>, chains: seq<seq<nat>>): Snapshot
    reads vcb, vcb.bitmap, vcb.windows, vcb.fat, files
  {
    Snapshot(vcb.Ledger(), vcb.clusterHint, vcb.fat.entries, AllFields(files), chains)
  }

  /** The free space of a snapshot, as the search for a run sees it. */
  ghost function SpaceAt(s: Snapshot): Space {
    Space(s.books.bitmap, s.clusterHint, s.books.free)
  }

  /** The files of a snapshot are in order, with chains of their own, and the books agree with the FAT. */
  ghost predicate AllInOrder(vcb: Vcb, files: seq<Fcb>, s: Snapshot) {
    && FilesWere(vcb, files, s.chains, s.entries, s.fields)
    && InOrder(vcb.fat.bits, vcb.fat.numberOfClusters, s.books) && s.books.used == UsedBits(s.entries)
  }

  lemma InOrderNow(vcb: Vcb, files: seq<Fcb>, chains: seq<seq<nat>>)
    requires FilesOk(vcb, files, chains)
    ensures AllInOrder(vcb, files, Now(vcb, files, chains))
  {
    FilesAsFields(vcb, files, chains);
    hide FileOk;
    hide FilesWere;
    hide InOrder;
    hide UsedBits;
  }

  /** What a request is answered. */
  datatype Reply = Growing(growth: Growth) | Cutting(truncation: Truncation) | Located(answer: Answer)

  /** A request is for a file of the snapshot. */
  ghost predicate Concerns(vcb: Vcb, s: Snapshot, request: Request) {
    vcb.bytesPerCluster > 0 && request.file < |s.fields| && request.file < |s.chains|
  }

  /** A request makes the driver stop the system. */
  ghost predicate Halting(vcb: Vcb, s: Snapshot, request: Request) {
    && Concerns(vcb, s, request) && request.GrowTo?
    && Outcome(vcb, SpaceAt(s), s.fields[request.file], s.chains[request.file], request.size).Halted?
  }

  /** A request gives a file a cluster that no link can name. */
  ghost predicate LosesLink(vcb: Vcb, s: Snapshot, s': Snapshot, request: Request) {
    && Concerns(vcb, s, request) && Concerns(vcb, s', request) && request.GrowTo?
    && Outcome(vcb, SpaceAt(s), s.fields[request.file], s.chains[request.file], request.size).Grown?
    && !Linkable(vcb.fat.bits, s'.chains[request.file])
  }

  /** What a request makes of the chain of its file. */
  ghost predicate ChainFollows(vcb: Vcb, s: Snapshot, request: Request, chain': seq<nat>)
    requires Concerns(vcb, s, request)
  {
    var f, chain := s.fields[request.file], s.chains[request.file];
    match request
    case GrowTo(_, size) =>
      if Outcome(vcb, SpaceAt(s), f, chain, size).Grown?
      then chain < chain' && Span(vcb.bytesPerCluster, |chain'| - 1) < size <= Span(vcb.bytesPerCluster, |chain'|)
      else chain' == chain
    case TruncateTo(_, size) =>
      var kept := ClustersToHold(vcb.bytesPerCluster, size);
      chain' == if CutOutcome(vcb.bytesPerCluster, f, chain, size).Shortened? then chain[..kept] else chain
    case LookUp(_, _) => chain' == chain
  }

  /** The reply to a request is the right one. */
  ghost predicate ReplyFits(vcb: Vcb, s: Snapshot, request: Request, reply: Reply)
    requires Concerns(vcb, s, request)
  {
    var f, chain := s.fields[request.file], s.chains[request.file];
    match request
    case GrowTo(_, size) => reply == Growing(Outcome(vcb, SpaceAt(s), f, chain, size))
    case TruncateTo(_, size) => reply == Cutting(CutOutcome(vcb.bytesPerCluster, f, chain, size))
    case LookUp(_, vbo) => reply.Located? && AnswersIn(vcb, vbo, chain, reply.answer)
  }

  /** One request leads from one snapshot to the next: only the chain of its file changes, and what it gains the volume loses. */
  ghost predicate Follows(vcb: Vcb, s: Snapshot, s': Snapshot, request: Request, reply: Reply) {
    && Concerns(vcb, s, request) && Concerns(vcb, s', request) && ReplyFits(vcb, s, request, reply)
    && var chain' := s'.chains[request.file];
      && s'.chains == s.chains[request.file := chain'] && ChainFollows(vcb, s, request, chain')
      && s'.books.free + |chain'| == s.books.free + |s.chains[request.file]|
  }

  /** How a run of requests ends: all are served, the system has stopped, or a chain has lost a link. */
  datatype Ending = Served | SystemStopped | LinkLost

  lemma GrowFollows(vcb: Vcb, s: Snapshot, s': Snapshot, i: nat, size: nat, r: Growth, chain': seq<nat>)
    requires vcb.bytesPerCluster > 0 && i < |s.chains| == |s.fields| == |s'.fields| && s'.chains == s.chains[i := chain']
    requires r == Outcome(vcb, SpaceAt(s), s.fields[i], s.chains[i], size)
    requires !r.Halted? ==> s'.books.free + |chain'| == s.books.free + |s.chains[i]|
    requires if r.Grown? then s.chains[i] < chain' && Span(vcb.bytesPerCluster, |chain'| - 1) < size <= Span(vcb.bytesPerCluster, |chain'|)
      else r.Halted? || chain' == s.chains[i]
    ensures Halting(vcb, s, GrowTo(i, size)) <==> r.Halted?
    ensures !r.Halted? ==> Follows(vcb, s, s', GrowTo(i, size), Growing(r))
    ensures LosesLink(vcb, s, s', GrowTo(i, size)) <==> r.Grown? && !Linkable(vcb.fat.bits, chain')
  {
    hide Outcome;
    hide SizeLostOf;
    hide Linkable;
  }

  lemma OtherFollows(vcb: Vcb, s: Snapshot, s': Snapshot, request: Request, chain': seq<nat>, reply: Reply)
    requires !request.GrowTo? && Concerns(vcb, s, request) && |s.chains| == |s.fields| == |s'.fields| && s'.chains == s.chains[request.file := chain']
    requires ChainFollows(vcb, s, request, chain') && ReplyFits(vcb, s, request, reply) && s'.books.free + |chain'| == s.books.free + |s.chains[request.file]|
    ensures !Halting(vcb, s, request) && !LosesLink(vcb, s, s', request) && Follows(vcb, s, s', request, reply)
  {
    hide ChainFollows;
    hide ReplyFits;
  }

  lemma NowIs(vcb: Vcb, files: seq<Fcb>, chains: seq<seq<nat>>)
    ensures var s := Now(vcb, files, chains);
      && s.chains == chains && |s.fields| == |files| && SpaceAt(s) == SpaceOf(vcb) && s.books.free == vcb.numberOfFreeClusters
      && forall k :: 0 <= k < |files| ==> s.fields[k] == FieldsOf(files[k])
  {
    hide FieldsOf;
  }

  lemma Named(vcb: Vcb, files: seq<Fcb>, chains: seq<seq<nat>>, request: Request)
    requires FilesOk(vcb, files, chains) && WellFormed(request, |files|)
    ensures request.file < |files| == |chains| && vcb.bytesPerCluster > 0 && Concerns(vcb, Now(vcb, files, chains), request)
    ensures request.GrowTo? || request.TruncateTo? ==> request.size <= MAXULONG
    ensures request.LookUp? ==> request.vbo <= MAXULONG
  {
    FilesSay(vcb, files, chains, request.file);
    NowIs(vcb, files, chains);
    hide FilesOk;
    hide Now;
  }

  lemma CutFollows(vcb: Vcb, s: Snapshot, i: nat, size: nat, r: Truncation, chain': seq<nat>)
    requires Concerns(vcb, s, TruncateTo(i, size))
    requires r.SizeUnreadable? <==> SizeLostOf(vcb.bytesPerCluster, s.fields[i], s.chains[i])
    requires r.Shortened? <==> !r.SizeUnreadable? && ClustersToHold(vcb.bytesPerCluster, size) < |s.chains[i]|
    requires chain' == if r.Shortened? then s.chains[i][..ClustersToHold(vcb.bytesPerCluster, size)] else s.chains[i]
    ensures ChainFollows(vcb, s, TruncateTo(i, size), chain') && ReplyFits(vcb, s, TruncateTo(i, size), Cutting(r))
  {
    hide SizeLostOf;
    hide ClustersToHold;
  }

  lemma LookUpFollows(vcb: Vcb, s: Snapshot, i: nat, vbo: nat, r: Answer)
    requires Concerns(vcb, s, LookUp(i, vbo)) && AnswersIn(vcb, vbo, s.chains[i], r)
    ensures ChainFollows(vcb, s, LookUp(i, vbo), s.chains[i]) && ReplyFits(vcb, s, LookUp(i, vbo), Located(r))
  {
    hide AnswersIn;
  }

  lemma HighCluster(bits: IndexBits, cs: seq<nat>, n: nat)
    requires InHeap(cs, n) && !Linkable(bits, cs)
    ensures n + 2 > ReservedBase(bits)
  {
    hide ReservedBase;
  }

  /** Serves one request. */
  method ServeOne(vcb: Vcb, files: seq<Fcb>, request: Request, ghost chains: seq<seq<nat>>) returns (end: Ending, reply: Reply, ghost chains': seq<seq<nat>>)
    requires FilesOk(vcb, files, chains) && WellFormed(request, |files|)
    modifies files, vcb, vcb.bitmap, vcb.windows, vcb.fat, vcb.fat.units
    ensures end.SystemStopped? <==> Halting(vcb, old(Now(vcb, files, chains)), request)
    ensures !end.SystemStopped? ==>
      && (vcb.bitmap == old(vcb.bitmap) || fresh(vcb.bitmap))
      && Follows(vcb, old(Now(vcb, files, chains)), Now(vcb, files, chains'), request, reply)
      && (end.LinkLost? <==> LosesLink(vcb, old(Now(vcb, files, chains)), Now(vcb, files, chains'), request))
    ensures end.Served? ==> FilesOk(vcb, files, chains')
    ensures end.LinkLost? ==> OthersOk(vcb, files, chains', request.file) && vcb.fat.numberOfClusters + 2 > ReservedBase(vcb.fat.bits)
  {
    hide *;
    ghost var s := Now(vcb, files, chains);
    Named(vcb, files, chains, request);
    NowIs(vcb, files, chains);
    ghost var chain;
    end := Served;
    match request
    case GrowTo(i, size) =>
      var r;
      r, chain := GrowIn(vcb, files, i, size, chains);
      reply, chains' := Growing(r), chains[i := chain];
      NowIs(vcb, files, chains');
      GrowFollows(vcb, s, Now(vcb, files, chains'), i, size, r, chain);
      if r.Halted? {
        end := SystemStopped;
      } else if r.Grown? {
        if !Linkable(vcb.fat.bits, files[i].mcb) {
          end := LinkLost;
          HighCluster(vcb.fat.bits, chain, vcb.fat.numberOfClusters);
        }
      }
    case TruncateTo(i, size) =>
      var r;
      r, chain := TruncateIn(vcb, files, i, size, chains);
      reply, chains' := Cutting(r), chains[i := chain];
      NowIs(vcb, files, chains');
      CutFollows(vcb, s, i, size, r, chain);
      OtherFollows(vcb, s, Now(vcb, files, chains'), request, chain, reply);
    case LookUp(i, vbo) =>
      var r := LookUpIn(vcb, files, i, vbo, chains);
      reply, chains' := Located(r), chains;
      NowIs(vcb, files, chains');
      assert chains == chains[i := chains[i]];
      LookUpFollows(vcb, s, i, vbo, r);
      OtherFollows(vcb, s, Now(vcb, files, chains'), request, chains[i], reply);
  }

  ghost predicate LinkLostAt(vcb: Vcb, run: seq<Snapshot>, requests: seq<Request>, k: nat)
    requires k + 1 < |run| <= |requests| + 1
  {
    LosesLink(vcb, run[k], run[k + 1], requests[k])
  }

  ghost predicate RunStep(vcb: Vcb, files: seq<Fcb>, run: seq<Snapshot>, requests: seq<Request>, replies: seq<Reply>, k: nat)
    requires k + 1 < |run| == |replies| + 1 <= |requests| + 1
  {
    && AllInOrder(vcb, files, run[k]) && Follows(vcb, run[k], run[k + 1], requests[k], replies[k]) && !Halting(vcb, run[k], requests[k])
    && (k + 2 < |run| ==> !LinkLostAt(vcb, run, requests, k))
  }

  /** A run: the snapshots before and after each request that has been served, of which only the last may have lost a link. */
  ghost predicate Run(vcb: Vcb, files: seq<Fcb>, run: seq<Snapshot>, requests: seq<Request>, replies: seq<Reply>) {
    && |run| == |replies| + 1 <= |requests| + 1
    && forall k :: 0 <= k < |run| - 1 ==> RunStep(vcb, files, run, requests, replies, k)
  }

  lemma RunGrows(vcb: Vcb, files: seq<Fcb>, run: seq<Snapshot>, requests: seq<Request>, replies: seq<Reply>, s': Snapshot, reply: Reply)
    requires Run(vcb, files, run, requests, replies) && |run| <= |requests| && AllInOrder(vcb, files, run[|run| - 1])
    requires |run| > 1 ==> !LinkLostAt(vcb, run, requests, |run| - 2)
    requires Follows(vcb, run[|run| - 1], s', requests[|run| - 1], reply) && !Halting(vcb, run[|run| - 1], requests[|run| - 1])
    ensures Run(vcb, files, run + [s'], requests, replies + [reply])
    ensures LinkLostAt(vcb, run + [s'], requests, |run| - 1) <==> LosesLink(vcb, run[|run| - 1], s', requests[|run| - 1])
  {
    hide AllInOrder;
    hide Follows;
    hide Halting;
    hide LosesLink;
    var run', replies' := run + [s'], replies + [reply];
    forall k | 0 <= k < |run'| - 1 ensures RunStep(vcb, files, run', requests, replies', k) {
      assert k < |run| - 1 ==> RunStep(vcb, files, run, requests, replies, k);
    }
  }

  /** The clusters of all chains. */
  function TotalLength(chains: seq<seq<nat>>): nat {
    if chains == [] then 0 else TotalLength(chains[..|chains| - 1]) + |chains[|chains| - 1]|
  }

  lemma {:induction false} TotalWith(chains: seq<seq<nat>>, i: nat, chain: seq<nat>)
    requires i < |chains|
    ensures TotalLength(chains[i := chain]) == TotalLength(chains) - |chains[i]| + |chain|
  {
    var n := |chains| - 1;
    if i == n {
      assert chains[i := chain][..n] == chains[..n];
    } else {
      assert chains[i := chain][..n] == chains[..n][i := chain];
      TotalWith(chains[..n], i, chain);
    }
  }

  /** All through a run, the free clusters and those of the files add up to what they were at its start. */
  lemma {:induction false} SpaceConserved(vcb: Vcb, files: seq<Fcb>, run: seq<Snapshot>, requests: seq<Request>, replies: seq<Reply>, k: nat)
    requires Run(vcb, files, run, requests, replies) && k < |run|
    ensures run[k].books.free + TotalLength(run[k].chains) == run[0].books.free + TotalLength(run[0].chains)
  {
    if k > 0 {
      SpaceConserved(vcb, files, run, requests, replies, k - 1);
      assert RunStep(vcb, files, run, requests, replies, k - 1);
      var i := requests[k - 1].file;
      TotalWith(run[k - 1].chains, i, run[k].chains[i]);
      hide ChainFollows;
      hide ReplyFits;
      hide AllInOrder;
      hide Halting;
      hide LosesLink;
    }
  }

  /**
    Serves requests in any order.  At every point of the run the files are in order
    and the books agree with the FAT, and every reply is the right one.  The run comes to its end early only when a request
    stops the system, or gives a file a cluster that no link can name; the first needs
    a FAT32 volume that fits one window, the second one with a cluster from the
    reserved base up.
   */
  method Serve(vcb: Vcb, files: seq<Fcb>, requests: seq<Request>, ghost chains: seq<seq<nat>>)
    returns (end: Ending, replies: seq<Reply>, ghost run: seq<Snapshot>)
    requires FilesOk(vcb, files, chains) && forall k :: 0 <= k < |requests| ==> WellFormed(requests[k], |files|)
    modifies files, vcb, vcb.bitmap, vcb.windows, vcb.fat, vcb.fat.units
    ensures Run(vcb, files, run, requests, replies) && run[0] == old(Now(vcb, files, chains))
    ensures !end.LinkLost? ==> AllInOrder(vcb, files, run[|run| - 1])
    ensures end.SystemStopped? ==> |run| <= |requests| && Halting(vcb, run[|run| - 1], requests[|run| - 1])
    ensures end.LinkLost? <==> |run| > 1 && LinkLostAt(vcb, run, requests, |run| - 2)
    ensures !end.SystemStopped? ==> run[|run| - 1] == Now(vcb, files, run[|run| - 1].chains)
    ensures end.Served? ==> |run| == |requests| + 1 && FilesOk(vcb, files, run[|run| - 1].chains)
    ensures end.LinkLost? ==> OthersOk(vcb, files, run[|run| - 1].chains, requests[|run| - 2].file)
    ensures end.SystemStopped? ==> OneWindowFat32(vcb)
    ensures end.LinkLost? ==> vcb.fat.numberOfClusters + 2 > ReservedBase(vcb.fat.bits)
  {
    hide *;
    ghost var now := chains;
    run, replies, end := [Now(vcb, files, chains)], [], Served;
    RunStarts(vcb, files, run[0], requests);
    NowIs(vcb, files, now);
    InOrderNow(vcb, files, now);
    for k := 0 to |requests|
      invariant FilesOk(vcb, files, now) && (vcb.bitmap == old(vcb.bitmap) || fresh(vcb.bitmap))
      invariant end.Served? && |run| == |replies| + 1 == k + 1 && Run(vcb, files, run, requests, replies) && run[0] == old(Now(vcb, files, chains))
      invariant run[k] == Now(vcb, files, now) && run[k].chains == now && AllInOrder(vcb, files, run[k])
      invariant k > 0 ==> !LinkLostAt(vcb, run, requests, k - 1)
    {
      var reply;
      end, reply, now := ServeOne(vcb, files, requests[k], now);
      if end.SystemStopped? {
        HaltingNeeds(vcb, run[k], requests[k]);
        return;
      }
      NowIs(vcb, files, now);
      RunGrows(vcb, files, run, requests, replies, Now(vcb, files, now), reply);
      run, replies := run + [Now(vcb, files, now)], replies + [reply];
      if end.LinkLost? {
        return;
      }
      InOrderNow(vcb, files, now);
    }
  }

  lemma RunStarts(vcb: Vcb, files: seq<Fcb>, s: Snapshot, requests: seq<Request>)
    ensures Run(vcb, files, [s], requests, [])
  {
  }

  lemma HaltingNeeds(vcb: Vcb, s: Snapshot, request: Request)
    requires Halting(vcb, s, request)
    ensures OneWindowFat32(vcb)
  {
    hide ClustersFor;
  }

  /** While files are in order, every cluster of a chain is in use in the FAT and in the books, and is set in the bitmap of its window. */
  lemma InUseStaysMarked(vcb: Vcb, files: seq<Fcb>, chains: seq<seq<nat>>, i: nat, k: nat)
    requires FilesOk(vcb, files, chains) && i < |files| && k < |chains[i]|
    ensures var c := chains[i][k];
      && 2 <= c < |vcb.fat.entries| && vcb.fat.entries[c] != FAT_CLUSTER_AVAILABLE && vcb.used[c]
      && var w := vcb.windows[..][vcb.currentWindow]; w.firstCluster <= c <= w.lastCluster ==> vcb.bitmap[..][c - w.firstCluster]
  {
    assert files[i].firstCluster != 0;
    ChainInUse(vcb.fat.bits, vcb.fat.entries, chains[i], k);
    var c := chains[i][k];
    var b := vcb.Ledger();
    assert b.used[c];
    var w := b.windows[b.current];
    if w.firstCluster <= c <= w.lastCluster {
      assert b.bitmap[c - w.firstCluster] == b.used[w.firstCluster + (c - w.firstCluster)];
    }
  }
}
