/**
  The run map of a file: a LARGE_MCB without holes that starts at the first
  cluster of the file.  It is held as the sequence of the file's disk clusters;
  its runs are the longest stretches of consecutive clusters, since the package
  coalesces runs that adjoin.
 */
module Mcb {

  /** Cluster k of the file does not follow cluster k - 1 on the disk, or is the first, or lies beyond the map. */
  predicate Boundary(m: seq<nat>, k: nat)
    requires k <= |m|
  {
    k == 0 || k == |m| || m[k] != m[k - 1] + 1
  }

  /** The end of the run that holds cluster k. */
  function RunEnd(m: seq<nat>, k: nat): (end: nat)
    requires k < |m|
    ensures k < end <= |m| && Boundary(m, end)
    decreases |m| - k
  {
    if Boundary(m, k + 1) then k + 1 else RunEnd(m, k + 1)
  }

  /** A run ends at the first boundary behind its clusters. */
  lemma {:induction false} InsideRun(m: seq<nat>, k: nat)
    requires k < |m|
    ensures forall j :: k < j < RunEnd(m, k) ==> !Boundary(m, j)
    decreases |m| - k
  {
    if !Boundary(m, k + 1) {
      InsideRun(m, k + 1);
    }
  }

  /** The index of the run that holds cluster k: the number of boundaries that lie between the start of the map and k. */
  function RunIndex(m: seq<nat>, k: nat): nat
    requires k < |m|
  {
    if k == 0 then 0 else RunIndex(m, k - 1) + if Boundary(m, k) then 1 else 0
  }

  /** The number of runs. */
  function RunCount(m: seq<nat>): nat {
    if m == [] then 0 else RunIndex(m, |m| - 1) + 1
  }

  /** Clusters of one run are consecutive on the disk. */
  lemma {:induction false} RunConsecutive(m: seq<nat>, k: nat, j: nat)
    requires k <= j < |m| && forall i :: k < i <= j ==> !Boundary(m, i)
    ensures m[j] == m[k] + (j - k)
    decreases j - k
  {
    if k < j {
      RunConsecutive(m, k, j - 1);
      assert !Boundary(m, j);
    }
  }

  /** Within a run the index stays the same, and the next run has the next index. */
  lemma {:induction false} RunIndexSteps(m: seq<nat>, k: nat, j: nat)
    requires k <= j < |m| && forall i :: k < i < j ==> !Boundary(m, i)
    ensures RunIndex(m, j) == RunIndex(m, k) + if k < j && Boundary(m, j) then 1 else 0
    decreases j - k
  {
    if k < j {
      RunIndexSteps(m, k, j - 1);
      assert j - 1 > k ==> !Boundary(m, j - 1);
    }
  }

  /** The index grows with the position. */
  lemma {:induction false} RunIndexMonotone(m: seq<nat>, k: nat, j: nat)
    requires k <= j < |m|
    ensures RunIndex(m, k) <= RunIndex(m, j)
    decreases j - k
  {
    if k < j {
      RunIndexMonotone(m, k, j - 1);
    }
  }

  /** Clusters with the same run index lie in one run. */
  lemma {:induction false} SameRun(m: seq<nat>, k: nat, j: nat)
    requires k <= j < |m| && RunIndex(m, k) == RunIndex(m, j)
    ensures forall i :: k < i <= j ==> !Boundary(m, i)
    ensures j < RunEnd(m, k)
    decreases j - k
  {
    if k < j {
      RunIndexMonotone(m, k, j - 1);
      SameRun(m, k, j - 1);
    }
  }

  /** FatGetNextMcbEntry: the position at which a run starts. */
  function NthRun(m: seq<nat>, index: nat): (start: nat)
    requires index < RunCount(m)
    ensures start < |m| && RunIndex(m, start) == index && Boundary(m, start)
  {
    if index == 0 then 0
    else
      RunIndexMonotone(m, 0, |m| - 1);
      var before := NthRun(m, index - 1);
      var start := RunEnd(m, before);
      NextRunExists(m, before);
      start
  }

  /** A run with a smaller index than the last one is followed by another run. */
  lemma NextRunExists(m: seq<nat>, k: nat)
    requires k < |m|
    ensures RunEnd(m, k) < |m| ==> RunIndex(m, RunEnd(m, k)) == RunIndex(m, k) + 1
    ensures RunEnd(m, k) == |m| <==> RunIndex(m, k) == RunIndex(m, |m| - 1)
  {
    var end := RunEnd(m, k);
    InsideRun(m, k);
    if end < |m| {
      RunIndexSteps(m, k, end);
      RunIndexMonotone(m, end, |m| - 1);
    } else {
      RunIndexSteps(m, k, |m| - 1);
      assert |m| - 1 > k ==> !Boundary(m, |m| - 1);
    }
  }

  /** Where the run with an index starts; behind the last run, the end of the map. */
  function RunStart(m: seq<nat>, index: nat): (start: nat)
    ensures start <= |m|
  {
    if index < RunCount(m) then NthRun(m, index) else |m|
  }

  /** The runs, one after the other, cover the map. */
  lemma NthRunEnd(m: seq<nat>, index: nat)
    requires index < RunCount(m)
    ensures RunEnd(m, NthRun(m, index)) == RunStart(m, index + 1)
  {
    NextRunExists(m, NthRun(m, index));
  }

  /** Clusters of one run have the same run end. */
  lemma {:induction false} RunEndSame(m: seq<nat>, k: nat, j: nat)
    requires k <= j < |m| && forall i :: k < i <= j ==> !Boundary(m, i)
    ensures RunEnd(m, j) == RunEnd(m, k)
    decreases j - k
  {
    if k < j {
      RunEndSame(m, k + 1, j);
      assert !Boundary(m, k + 1);
    }
  }

  /** The run of a cluster ends where the run with the next index starts. */
  lemma RunEndIsNextStart(m: seq<nat>, k: nat)
    requires k < |m|
    ensures RunIndex(m, k) < RunCount(m) && RunEnd(m, k) == RunStart(m, RunIndex(m, k) + 1)
  {
    RunIndexMonotone(m, k, |m| - 1);
    var start := NthRun(m, RunIndex(m, k));
    if k < start {
      SameRun(m, k, start);
      assert false;
    }
    SameRun(m, start, k);
    RunEndSame(m, start, k);
    NthRunEnd(m, RunIndex(m, k));
  }
}
