/**
  Values of FAT entries and what they mean, and cluster chains over them.
  An entry is held as the lookup routine returns it: 12 or 16 bits wide, or the
  low 28 bits of a FAT32 entry.  See section "FAT Data Structure" of the
  Microsoft FAT32 File System Specification.
 */
module FatEntries {
  const FAT_CLUSTER_AVAILABLE: nat := 0x00000000
  const FAT_CLUSTER_RESERVED: nat := 0x0ffffff0
  const FAT_CLUSTER_BAD: nat := 0x0ffffff7
  const FAT_CLUSTER_LAST: nat := 0x0fffffff

  datatype IndexBits = Fat12 | Fat16 | Fat32

  datatype ClusterType = Available | Reserved | Bad | Last | Next

  /** One more than the largest value an entry can hold. */
  function EntryLimit(bits: IndexBits): nat {
    match bits
    case Fat12 => 0x1000
    case Fat16 => 0x1_0000
    case Fat32 => 0x1000_0000
  }

  /** The value an entry keeps when v is written to it. */
  function Truncated(bits: IndexBits, v: nat): (r: nat)
    ensures r < EntryLimit(bits) && (v < EntryLimit(bits) ==> r == v)
  {
    match bits
    case Fat12 => v % 0x1000
    case Fat16 => v % 0x1_0000
    case Fat32 => v % 0x1000_0000
  }

  /** The end-of-chain mark as it is stored in an entry. */
  function LastMark(bits: IndexBits): nat {
    Truncated(bits, FAT_CLUSTER_LAST)
  }

  /** The first entry value that does not name a next cluster. */
  function ReservedBase(bits: IndexBits): nat {
    Truncated(bits, FAT_CLUSTER_RESERVED)
  }

  /** FatInterpretClusterType: narrow entries from the reserved base up are widened first. */
  function InterpretClusterType(bits: IndexBits, entry: nat): ClusterType
    requires entry < EntryLimit(bits)
  {
    var wide :=
      match bits
      case Fat32 => entry
      case Fat12 => if entry >= 0x0ff0 then entry + 0x0FFFF000 else entry
      case Fat16 => if entry >= 0xfff0 then entry + 0x0FFF0000 else entry;
    if wide == FAT_CLUSTER_AVAILABLE then Available
    else if wide < FAT_CLUSTER_RESERVED then Next
    else if wide < FAT_CLUSTER_BAD then Reserved
    else if wide == FAT_CLUSTER_BAD then Bad
    else Last
  }

  /**
    A link survives being stored and read back exactly when its target lies below
    the reserved base.  So a FAT12 volume with a cluster 0xff0, or a FAT16 volume
    with a cluster 0xfff0, has clusters no chain can reach.
   */
  lemma LinkReadableIff(bits: IndexBits, cluster: nat)
    requires 0 < cluster < EntryLimit(bits)
    ensures InterpretClusterType(bits, Truncated(bits, cluster)) == Next <==> cluster < ReservedBase(bits)
    ensures InterpretClusterType(bits, LastMark(bits)) == Last
  {
  }

  /** What each value of an entry means, width by width. */
  lemma ClusterTypeIs(bits: IndexBits, entry: nat)
    requires entry < EntryLimit(bits)
    ensures var t := InterpretClusterType(bits, entry);
      match bits
      case Fat12 =>
        && (t.Available? <==> entry == 0) && (t.Next? <==> 1 <= entry <= 0xfef) && (t.Reserved? <==> 0xff0 <= entry <= 0xff6)
        && (t.Bad? <==> entry == 0xff7) && (t.Last? <==> 0xff8 <= entry <= 0xfff)
      case Fat16 =>
        && (t.Available? <==> entry == 0) && (t.Next? <==> 1 <= entry <= 0xffef) && (t.Reserved? <==> 0xfff0 <= entry <= 0xfff6)
        && (t.Bad? <==> entry == 0xfff7) && (t.Last? <==> 0xfff8 <= entry <= 0xffff)
      case Fat32 =>
        && (t.Available? <==> entry == 0) && (t.Next? <==> 1 <= entry <= 0x0fff_ffef) && (t.Reserved? <==> 0x0fff_fff0 <= entry <= 0x0fff_fff6)
        && (t.Bad? <==> entry == 0x0fff_fff7) && (t.Last? <==> 0x0fff_fff8 <= entry <= 0x0fff_ffff)
  {
  }

  ghost predicate Differ(cs: seq<nat>, i: nat, j: nat)
    requires i < |cs| && j < |cs|
  {
    cs[i] != cs[j]
  }

  /** No cluster occurs twice. */
  ghost predicate Distinct(cs: seq<nat>) {
    forall i, j {:trigger Differ(cs, i, j)} :: 0 <= i < j < |cs| ==> Differ(cs, i, j)
  }

  /** Every element names a cluster of the file heap of an n-cluster volume. */
  ghost predicate InHeap(cs: seq<nat>, n: nat) {
    forall i :: 0 <= i < |cs| ==> 2 <= cs[i] <= n + 1
  }

  /** cs is a chain of links of which the last element is marked last. */
  ghost predicate IsChain(bits: IndexBits, e: seq<nat>, cs: seq<nat>) {
    && |cs| > 0 && |e| >= 2
    && InHeap(cs, |e| - 2)
    && (forall i :: 0 <= i < |e| ==> e[i] < EntryLimit(bits))
    && (forall i {:trigger e[cs[i]]} :: 0 <= i < |cs| - 1 ==> e[cs[i]] == cs[i + 1] && InterpretClusterType(bits, e[cs[i]]) == Next)
    && InterpretClusterType(bits, e[cs[|cs| - 1]]) == Last
  }

  /** The largest entry that is a link. */
  function LargestLink(bits: IndexBits): nat {
    match bits case Fat12 => 0xfef case Fat16 => 0xffef case Fat32 => 0x0fff_ffef
  }

  /** The smallest end-of-chain mark. */
  function FirstEndMark(bits: IndexBits): nat {
    match bits case Fat12 => 0xff8 case Fat16 => 0xfff8 case Fat32 => 0x0fff_fff8
  }

  predicate LinksToNext(bits: IndexBits, e: seq<nat>, cs: seq<nat>, i: nat)
    requires i + 1 < |cs| && cs[i] < |e|
  {
    e[cs[i]] == cs[i + 1] <= LargestLink(bits)
  }

  /** A chain as it lies in a FAT, by the values of its entries: links, and any end-of-chain mark behind the last cluster. */
  ghost predicate LiesAsChain(bits: IndexBits, e: seq<nat>, cs: seq<nat>) {
    && |cs| > 0 && (forall i :: 0 <= i < |cs| ==> 2 <= cs[i] < |e|)
    && (forall i :: 0 <= i < |cs| - 1 ==> LinksToNext(bits, e, cs, i))
    && e[cs[|cs| - 1]] >= FirstEndMark(bits)
  }

  /** In a FAT whose entries have their width, that is what a chain is. */
  lemma ChainByValues(bits: IndexBits, e: seq<nat>, cs: seq<nat>)
    requires |e| >= 2 && forall i :: 0 <= i < |e| ==> e[i] < EntryLimit(bits)
    ensures IsChain(bits, e, cs) <==> LiesAsChain(bits, e, cs)
  {
    if LiesAsChain(bits, e, cs) {
      LiesThenChain(bits, e, cs);
    }
    if IsChain(bits, e, cs) {
      ChainThenLies(bits, e, cs);
    }
    hide *;
  }

  lemma LiesThenChain(bits: IndexBits, e: seq<nat>, cs: seq<nat>)
    requires |e| >= 2 && (forall i :: 0 <= i < |e| ==> e[i] < EntryLimit(bits)) && LiesAsChain(bits, e, cs)
    ensures IsChain(bits, e, cs)
  {
    hide InterpretClusterType;
    hide EntryLimit;
    hide LargestLink;
    hide FirstEndMark;
    forall i {:trigger e[cs[i]]} | 0 <= i < |cs| - 1 ensures e[cs[i]] == cs[i + 1] && InterpretClusterType(bits, e[cs[i]]) == Next {
      assert LinksToNext(bits, e, cs, i);
      TypeByValue(bits, e[cs[i]]);
    }
    TypeByValue(bits, e[cs[|cs| - 1]]);
  }

  lemma ChainThenLies(bits: IndexBits, e: seq<nat>, cs: seq<nat>)
    requires IsChain(bits, e, cs)
    ensures LiesAsChain(bits, e, cs)
  {
    hide InterpretClusterType;
    hide EntryLimit;
    hide LargestLink;
    hide FirstEndMark;
    forall i | 0 <= i < |cs| - 1 ensures LinksToNext(bits, e, cs, i) {
      TypeByValue(bits, e[cs[i]]);
    }
    TypeByValue(bits, e[cs[|cs| - 1]]);
  }

  lemma TypeByValue(bits: IndexBits, entry: nat)
    requires entry < EntryLimit(bits)
    ensures InterpretClusterType(bits, entry) == Next <==> 0 < entry <= LargestLink(bits)
    ensures InterpretClusterType(bits, entry) == Last <==> entry >= FirstEndMark(bits)
  {
    ClusterTypeIs(bits, entry);
    hide InterpretClusterType;
  }

  /** What cluster i of a chain holds: the next cluster, or the last mark. */
  function LinkAfter(bits: IndexBits, cs: seq<nat>, i: nat): nat
    requires i < |cs|
  {
    if i + 1 < |cs| then cs[i + 1] else LastMark(bits)
  }

  /** The entries after the clusters of cs have been linked, in order, into one chain that ends in the last mark. */
  ghost predicate LinkedAs(bits: IndexBits, e: seq<nat>, e': seq<nat>, cs: seq<nat>) {
    && |e'| == |e|
    && (forall i :: 0 <= i < |cs| ==> cs[i] < |e|)
    && (forall i {:trigger e'[cs[i]]} :: 0 <= i < |cs| ==> e'[cs[i]] == LinkAfter(bits, cs, i))
    && (forall c :: 0 <= c < |e| && c !in cs ==> e'[c] == e[c])
  }

  /** Every cluster but the first, which no link names, lies below the reserved base. */
  predicate Linkable(bits: IndexBits, cs: seq<nat>) {
    forall i :: 0 < i < |cs| ==> cs[i] < ReservedBase(bits)
  }

  /** The entries after every cluster of cs has been freed. */
  ghost predicate FreedAs(e: seq<nat>, e': seq<nat>, cs: seq<nat>) {
    && |e'| == |e|
    && (forall i :: 0 <= i < |cs| ==> cs[i] < |e| && e'[cs[i]] == FAT_CLUSTER_AVAILABLE)
    && (forall c :: 0 <= c < |e| && c !in cs ==> e'[c] == e[c])
  }

  /** What cluster i of a run receives: AVAILABLE, a link to its successor, or the last mark. */
  function RunEntry(bits: IndexBits, start: nat, n: nat, chain: bool, i: nat): nat {
    if !chain then FAT_CLUSTER_AVAILABLE else if i + 1 == start + n then LastMark(bits) else i + 1
  }

  /** The entries after one run is chained together, or freed, and nothing else touched. */
  ghost function RunWritten(bits: IndexBits, e: seq<nat>, start: nat, n: nat, chain: bool): seq<nat> {
    seq(|e|, i requires 0 <= i < |e| =>
      if start <= i < start + n then RunEntry(bits, start, n, chain, i) else e[i])
  }

  /** The two elements of a repeated cluster would be followed by the same number of links. */
  lemma {:induction false} ChainSuffix(bits: IndexBits, e: seq<nat>, cs: seq<nat>, i: nat, j: nat)
    requires IsChain(bits, e, cs) && i <= j < |cs| && cs[i] == cs[j]
    ensures i == j
    decreases |cs| - j
  {
    if j + 1 < |cs| {
      assert e[cs[j]] == cs[j + 1] && e[cs[i]] == cs[i + 1];
      ChainSuffix(bits, e, cs, i + 1, j + 1);
    }
  }

  /** Chains are acyclic. */
  lemma ChainDistinct(bits: IndexBits, e: seq<nat>, cs: seq<nat>)
    requires IsChain(bits, e, cs)
    ensures Distinct(cs)
  {
    forall i, j | 0 <= i < j < |cs|
      ensures Differ(cs, i, j)
    {
      if cs[i] == cs[j] {
        ChainSuffix(bits, e, cs, i, j);
      }
    }
  }

  /** A cluster starts at most one chain. */
  lemma {:induction false} ChainUnique(bits: IndexBits, e: seq<nat>, cs: seq<nat>, ds: seq<nat>)
    requires IsChain(bits, e, cs) && IsChain(bits, e, ds) && cs[0] == ds[0]
    ensures cs == ds
    decreases |cs|
  {
    if |cs| > 1 && |ds| > 1 {
      assert e[cs[0]] == cs[1] && e[ds[0]] == ds[1];
      ChainUnique(bits, e, cs[1..], ds[1..]);
      assert cs == [cs[0]] + cs[1..] && ds == [ds[0]] + ds[1..];
    } else if |cs| > 1 {
      assert false;
    } else if |ds| > 1 {
      assert false;
    }
  }

  /** Two chains are disjoint unless one is a tail of the other, so chains with different first clusters that no chain enters are disjoint. */
  lemma {:induction false} ChainsMeetOnlyInTails(bits: IndexBits, e: seq<nat>, cs: seq<nat>, ds: seq<nat>, i: nat, j: nat)
    requires IsChain(bits, e, cs) && IsChain(bits, e, ds) && i < |cs| && j < |ds| && cs[i] == ds[j]
    ensures cs[i..] == ds[j..]
  {
    assert IsChain(bits, e, cs[i..]);
    assert IsChain(bits, e, ds[j..]);
    ChainUnique(bits, e, cs[i..], ds[j..]);
  }

  /** Distinct clusters of an n-cluster volume number at most n. */
  lemma {:induction false} Pigeonhole(cs: seq<nat>, lo: nat, n: nat)
    requires Distinct(cs) && forall i :: 0 <= i < |cs| ==> lo <= cs[i] < lo + n
    ensures |cs| <= n
    decreases n
  {
    if |cs| == 0 {
      return;
    }
    var first := cs[0];
    if n == 0 {
      assert false;
    } else if exists k :: 0 <= k < |cs| && cs[k] == lo + n - 1 {
      var k :| 0 <= k < |cs| && cs[k] == lo + n - 1;
      var rest := cs[..k] + cs[k + 1..];
      forall i | 0 <= i < |rest|
        ensures lo <= rest[i] < lo + n - 1
      {
        var m := if i < k then i else i + 1;
        assert rest[i] == cs[m] && if m < k then Differ(cs, m, k) else Differ(cs, k, m);
      }
      assert Distinct(rest) by {
        forall i, j | 0 <= i < j < |rest| ensures Differ(rest, i, j) {
          var i', j' := if i < k then i else i + 1, if j < k then j else j + 1;
          assert Differ(cs, i', j') && rest[i] == cs[i'] && rest[j] == cs[j'];
        }
      }
      Pigeonhole(rest, lo, n - 1);
    } else {
      Pigeonhole(cs, lo, n - 1);
    }
  }

  /** Entries all fit their width, before and after clusters are linked. */
  lemma LinkedBounded(bits: IndexBits, e: seq<nat>, e': seq<nat>, cs: seq<nat>)
    requires 2 <= |e| <= EntryLimit(bits) && LinkedAs(bits, e, e', cs) && InHeap(cs, |e| - 2)
    requires forall i :: 0 <= i < |e| ==> e[i] < EntryLimit(bits)
    ensures forall i :: 0 <= i < |e'| ==> e'[i] < EntryLimit(bits)
  {
    forall c | 0 <= c < |e'| ensures e'[c] < EntryLimit(bits) {
      if c in cs {
        var i :| 0 <= i < |cs| && cs[i] == c;
        assert i + 1 < |cs| ==> e'[c] == cs[i + 1];
      }
    }
  }

  /** Clusters linked in order are a chain exactly when all but the first lie below the reserved base. */
  lemma LinkedIsChain(bits: IndexBits, e: seq<nat>, e': seq<nat>, cs: seq<nat>)
    requires 2 <= |e| <= EntryLimit(bits) && LinkedAs(bits, e, e', cs) && |cs| > 0 && InHeap(cs, |e| - 2)
    requires forall i :: 0 <= i < |e| ==> e[i] < EntryLimit(bits)
    ensures IsChain(bits, e', cs) <==> forall i :: 0 < i < |cs| ==> cs[i] < ReservedBase(bits)
  {
    LinkedBounded(bits, e, e', cs);
    forall i | 0 <= i < |cs| - 1
      ensures e'[cs[i]] == cs[i + 1] && (InterpretClusterType(bits, e'[cs[i]]) == Next <==> cs[i + 1] < ReservedBase(bits))
    {
      LinkReadableIff(bits, cs[i + 1]);
    }
    var last := |cs| - 1;
    assert e'[cs[last]] == LastMark(bits);
    LinkReadableIff(bits, 1);
    if IsChain(bits, e', cs) {
      forall i | 0 < i < |cs| ensures cs[i] < ReservedBase(bits) {
        assert e'[cs[i - 1]] == cs[i - 1 + 1];
      }
    }
  }

  /** Every cluster in use that is not among cs keeps its entry. */
  ghost predicate KeptBut(e: seq<nat>, e': seq<nat>, cs: seq<nat>) {
    && |e'| == |e|
    && forall c {:trigger e'[c]} :: 0 <= c < |e| && c !in cs && e[c] != FAT_CLUSTER_AVAILABLE ==> e'[c] == e[c]
  }

  /** A chain that has no cluster in common with those that changed is still a chain. */
  lemma ChainKept(bits: IndexBits, e: seq<nat>, e': seq<nat>, cs: seq<nat>, ds: seq<nat>)
    requires IsChain(bits, e, ds) && KeptBut(e, e', cs) && forall i :: 0 <= i < |ds| ==> ds[i] !in cs
    requires forall i :: 0 <= i < |e'| ==> e'[i] < EntryLimit(bits)
    ensures IsChain(bits, e', ds)
  {
    forall i | 0 <= i < |ds| ensures e'[ds[i]] == e[ds[i]] {
      ChainInUse(bits, e, ds, i);
    }
  }

  /** The clusters of a chain are in use. */
  lemma ChainInUse(bits: IndexBits, e: seq<nat>, ds: seq<nat>, i: nat)
    requires IsChain(bits, e, ds) && i < |ds|
    ensures 2 <= ds[i] < |e| && e[ds[i]] != FAT_CLUSTER_AVAILABLE
  {
    assert i < |ds| - 1 ==> e[ds[i]] == ds[i + 1];
  }

  /** Marking one cluster of a chain last leaves the entries of the others alone. */
  lemma CutElsewhere(bits: IndexBits, e: seq<nat>, e': seq<nat>, cs: seq<nat>, at: nat, i: nat)
    requires IsChain(bits, e, cs) && 0 < at < |cs| && e' == e[cs[at - 1] := LastMark(bits)] && i < |cs| && i != at - 1
    ensures e'[cs[i]] == e[cs[i]] && (i < |cs| - 1 ==> e'[cs[i]] == cs[i + 1])
  {
    ChainDistinct(bits, e, cs);
    assert if i < at - 1 then Differ(cs, i, at - 1) else Differ(cs, at - 1, i);
    assert i < |cs| - 1 ==> e[cs[i]] == cs[i + 1];
  }

  lemma FrontPart(bits: IndexBits, e: seq<nat>, e': seq<nat>, cs: seq<nat>, at: nat)
    requires IsChain(bits, e, cs) && 0 < at < |cs| && e' == e[cs[at - 1] := LastMark(bits)]
    ensures IsChain(bits, e', cs[..at])
  {
    LinkReadableIff(bits, 1);
    hide InterpretClusterType;
    hide Truncated;
    var a := cs[..at];
    forall i | 0 <= i < |a| - 1 ensures e'[a[i]] == a[i + 1] && InterpretClusterType(bits, e'[a[i]]) == Next {
      CutElsewhere(bits, e, e', cs, at, i);
    }
  }

  lemma BackPart(bits: IndexBits, e: seq<nat>, e': seq<nat>, cs: seq<nat>, at: nat)
    requires IsChain(bits, e, cs) && 0 < at < |cs| && e' == e[cs[at - 1] := LastMark(bits)]
    ensures IsChain(bits, e', cs[at..])
  {
    LinkReadableIff(bits, 1);
    var b := cs[at..];
    assert InHeap(b, |e'| - 2) && b[|b| - 1] == cs[|cs| - 1];
    forall i: nat | i < |b| - 1 ensures e'[b[i]] == b[i + 1] && InterpretClusterType(bits, e'[b[i]]) == Next {
      CutElsewhere(bits, e, e', cs, at, at + i);
      StillLinked(bits, e, cs, at + i);
    }
    CutElsewhere(bits, e, e', cs, at, |cs| - 1);
    hide InterpretClusterType;
  }

  lemma StillLinked(bits: IndexBits, e: seq<nat>, cs: seq<nat>, i: nat)
    requires IsChain(bits, e, cs) && i < |cs| - 1
    ensures cs[i] < |e| && e[cs[i]] == cs[i + 1] && InterpretClusterType(bits, e[cs[i]]) == Next
  {
    assert 2 <= cs[i] < |e|;
    assert e[cs[i]] == cs[i + 1];
    hide InterpretClusterType;
  }

  /** Every cluster of a chain but the first is named by a link, so it lies below the reserved base. */
  lemma ChainReadable(bits: IndexBits, e: seq<nat>, cs: seq<nat>, i: nat)
    requires IsChain(bits, e, cs) && 0 < i < |cs| && |e| <= EntryLimit(bits)
    ensures cs[i] < ReservedBase(bits)
  {
    assert e[cs[i - 1]] == cs[i - 1 + 1];
    LinkReadableIff(bits, cs[i]);
  }

  /** Cutting a chain leaves two chains, of which the first ends in the last mark. */
  lemma SplitParts(bits: IndexBits, e: seq<nat>, e': seq<nat>, cs: seq<nat>, at: nat)
    requires IsChain(bits, e, cs) && 0 < at < |cs| && e' == e[cs[at - 1] := LastMark(bits)]
    ensures IsChain(bits, e', cs[..at]) && IsChain(bits, e', cs[at..])
  {
    FrontPart(bits, e, e', cs, at);
    BackPart(bits, e, e', cs, at);
  }

  /** Two disjoint chains become one when the last cluster of the first is linked to the second, if that link can be read back. */
  lemma JoinedParts(bits: IndexBits, e: seq<nat>, e': seq<nat>, a: seq<nat>, b: seq<nat>)
    requires IsChain(bits, e, a) && IsChain(bits, e, b) && forall i, j {:trigger a[i], b[j]} :: 0 <= i < |a| && 0 <= j < |b| ==> a[i] != b[j]
    requires e' == e[a[|a| - 1] := Truncated(bits, b[0])] && |e| <= EntryLimit(bits)
    ensures IsChain(bits, e', a + b) <==> b[0] < ReservedBase(bits)
  {
    ChainDistinct(bits, e, a);
    LinkReadableIff(bits, b[0]);
    var last := |a| - 1;
    var cs := a + b;
    forall i | 0 <= i < |cs| && i != last ensures e'[cs[i]] == e[cs[i]] {
      assert i < last ==> Differ(a, i, last);
    }
    forall i | 0 <= i < |cs| - 1 && i != last ensures e'[cs[i]] == cs[i + 1] && InterpretClusterType(bits, e'[cs[i]]) == Next {
      assert if i < last then e[a[i]] == a[i + 1] else e[b[i - |a|]] == b[i - |a| + 1];
    }
    assert e'[cs[last]] == cs[last + 1];
    assert e'[cs[|cs| - 1]] == e[b[|b| - 1]];
  }
}
