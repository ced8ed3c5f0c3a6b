/**
  Sizes in bytes and in clusters, and the 32-bit arithmetic that turns one into the other.
 */
module Sizes {
  import opened FatTable

  /** The bytes of n clusters. */
  function Span(bytesPerCluster: nat, n: nat): nat {
    if n == 0 then 0 else Span(bytesPerCluster, n - 1) + bytesPerCluster
  }

  lemma {:induction false} SpanIs(bytesPerCluster: nat, n: nat)
    ensures Span(bytesPerCluster, n) == n * bytesPerCluster
  {
    if n > 0 {
      SpanIs(bytesPerCluster, n - 1);
    }
  }

  lemma {:induction false} SpanAdds(bytesPerCluster: nat, n: nat, d: nat)
    ensures Span(bytesPerCluster, n + d) == Span(bytesPerCluster, n) + Span(bytesPerCluster, d)
    decreases d
  {
    if d > 0 {
      SpanAdds(bytesPerCluster, n, d - 1);
    }
  }

  lemma {:induction false} SpanMonotone(bytesPerCluster: nat, k: nat, n: nat)
    requires bytesPerCluster > 0
    ensures k <= n <==> Span(bytesPerCluster, k) <= Span(bytesPerCluster, n)
    ensures k < n <==> Span(bytesPerCluster, k) < Span(bytesPerCluster, n)
  {
    if k < n {
      SpanAdds(bytesPerCluster, k + 1, n - k - 1);
    } else if n < k {
      SpanAdds(bytesPerCluster, n + 1, k - n - 1);
    }
  }

  /** A number of bytes, in clusters, rounded up. */
  function ClustersFor(bytesPerCluster: nat, byteCount: nat): nat
    requires bytesPerCluster > 0
  {
    (byteCount + bytesPerCluster - 1) / bytesPerCluster
  }

  /** The size of an allocation: a whole number of clusters, but the size of the largest file is one byte short of 4 GB. */
  function AllocatedBytes(bytesPerCluster: nat, clusters: nat): nat {
    if Span(bytesPerCluster, clusters) == 0x1_0000_0000 then 0xffff_ffff else Span(bytesPerCluster, clusters)
  }

  /** Cluster sizes are powers of two, so they divide 4 GB. */
  ghost predicate DividesFourGigabytes(bytesPerCluster: nat) {
    bytesPerCluster > 0 && exists q: nat :: Span(bytesPerCluster, q) == 0x1_0000_0000
  }

  /** Rounding up to whole clusters with a mask, in 32-bit arithmetic: the sum may wrap. */
  function RoundedUp(bytesPerCluster: nat, byteCount: nat): nat
    requires bytesPerCluster > 0
  {
    var sum := (byteCount + (bytesPerCluster - 1)) % 0x1_0000_0000;
    sum - sum % bytesPerCluster
  }

  /** A byte count needs the smallest number of clusters that hold it; the rounded count is their size, or zero when that is 4 GB. */
  lemma {:induction false} RoundedUpIs(bytesPerCluster: nat, byteCount: nat)
    requires DividesFourGigabytes(bytesPerCluster) && 0 < byteCount < 0x1_0000_0000
    ensures var c := ClustersFor(bytesPerCluster, byteCount);
      && c > 0 && Span(bytesPerCluster, c - 1) < byteCount <= Span(bytesPerCluster, c) <= 0x1_0000_0000
      && RoundedUp(bytesPerCluster, byteCount) == if Span(bytesPerCluster, c) == 0x1_0000_0000 then 0 else Span(bytesPerCluster, c)
  {
    hide *;
    var q := FourGigabytes(bytesPerCluster);
    var x := byteCount + (bytesPerCluster - 1);
    var c := RoundingIs(bytesPerCluster, byteCount);
    SpanMonotone(bytesPerCluster, c - 1, q);
    SpanMonotone(bytesPerCluster, c, q);
    SpanMonotone(bytesPerCluster, q, c + 1);
    if x >= 0x1_0000_0000 {
      SmallRemainder(bytesPerCluster, x - 0x1_0000_0000);
    }
  }

  lemma FourGigabytes(bytesPerCluster: nat) returns (q: nat)
    requires DividesFourGigabytes(bytesPerCluster)
    ensures Span(bytesPerCluster, q) == 0x1_0000_0000 && 0 < bytesPerCluster <= 0x1_0000_0000
  {
    q :| Span(bytesPerCluster, q) == 0x1_0000_0000;
  }

  /** The clusters that hold a byte count, and what the mask makes of the sum, which wraps once at most. */
  lemma {:induction false} RoundingIs(bytesPerCluster: nat, byteCount: nat) returns (c: nat)
    requires 0 < bytesPerCluster <= 0x1_0000_0000 && 0 < byteCount < 0x1_0000_0000
    ensures c == ClustersFor(bytesPerCluster, byteCount) > 0
    ensures Span(bytesPerCluster, c - 1) + bytesPerCluster == Span(bytesPerCluster, c) && Span(bytesPerCluster, c + 1) == Span(bytesPerCluster, c) + bytesPerCluster
    ensures var x := byteCount + (bytesPerCluster - 1);
      && Span(bytesPerCluster, c) <= x < Span(bytesPerCluster, c) + bytesPerCluster
      && (x < 0x1_0000_0000 ==> RoundedUp(bytesPerCluster, byteCount) == Span(bytesPerCluster, c))
      && (x >= 0x1_0000_0000 ==> RoundedUp(bytesPerCluster, byteCount) == x - 0x1_0000_0000 - (x - 0x1_0000_0000) % bytesPerCluster)
  {
    var x := byteCount + (bytesPerCluster - 1);
    c := x / bytesPerCluster;
    WholeAndRest(bytesPerCluster, x);
    WrapsOnce(x);
  }

  lemma WrapsOnce(x: nat)
    requires x < 0x2_0000_0000
    ensures x % 0x1_0000_0000 == if x < 0x1_0000_0000 then x else x - 0x1_0000_0000
  {
  }

  lemma {:induction false} WholeAndRest(bytesPerCluster: nat, x: nat)
    requires 0 < bytesPerCluster <= x
    ensures var c := x / bytesPerCluster;
      c > 0 && Span(bytesPerCluster, c) == x - x % bytesPerCluster && Span(bytesPerCluster, c - 1) == Span(bytesPerCluster, c) - bytesPerCluster
    ensures x % bytesPerCluster < bytesPerCluster
  {
    var c := x / bytesPerCluster;
    SpanIs(bytesPerCluster, c);
    assert x == c * bytesPerCluster + x % bytesPerCluster;
  }

  /** Rounds a byte count up to whole clusters; a sum that wraps stands for the largest file. */
  method RoundUp(bytesPerCluster: nat, byteCount: nat) returns (rounded: nat, clusters: nat)
    requires DividesFourGigabytes(bytesPerCluster) && 0 < byteCount < 0x1_0000_0000
    ensures clusters == ClustersFor(bytesPerCluster, byteCount) > 0
    ensures rounded == AllocatedBytes(bytesPerCluster, clusters)
  {
    RoundedUpIs(bytesPerCluster, byteCount);
    rounded := RoundedUp(bytesPerCluster, byteCount);
    WholeClusters(bytesPerCluster, ClustersFor(bytesPerCluster, byteCount));
    if rounded == 0 {
      rounded, clusters := 0xffff_ffff, 0x1_0000_0000 / bytesPerCluster;
    } else {
      clusters := rounded / bytesPerCluster;
    }
  }

  lemma SmallRemainder(b: int, x: int)
    requires 0 <= x < b
    ensures x % b == x
  {
  }

  lemma {:induction false} WholeClusters(bytesPerCluster: nat, c: nat)
    requires bytesPerCluster > 0
    ensures Span(bytesPerCluster, c) / bytesPerCluster == c
  {
    SpanIs(bytesPerCluster, c);
    QuotientUnique(bytesPerCluster, c * bytesPerCluster, c, 0);
  }

  /** One more cluster reaches 4 GB exactly or stays below it. */
  lemma WrapsAtFourGigabytes(bytesPerCluster: nat, n: nat)
    requires DividesFourGigabytes(bytesPerCluster) && n > 0 && Span(bytesPerCluster, n - 1) < 0x1_0000_0000
    ensures 0 < Span(bytesPerCluster, n) <= 0x1_0000_0000
  {
    var q: nat :| Span(bytesPerCluster, q) == 0x1_0000_0000;
    SpanMonotone(bytesPerCluster, n - 1, q);
    SpanMonotone(bytesPerCluster, n, q);
  }

  /** A size below 4 GB is below it by a cluster. */
  lemma BelowFourGigabytes(bytesPerCluster: nat, n: nat)
    requires DividesFourGigabytes(bytesPerCluster) && Span(bytesPerCluster, n) < 0x1_0000_0000
    ensures Span(bytesPerCluster, n) + bytesPerCluster <= 0x1_0000_0000
  {
    WrapsAtFourGigabytes(bytesPerCluster, n + 1);
  }
}
