/**
  The bitmap package the cluster allocator and the directory code rely on.
  A bitmap is an array of bits; a set bit means "in use".
 */
module Bits {

  /** The bits [start, start + n) exist and are all clear. */
  ghost predicate ClearRun(b: seq<bool>, start: int, n: int) {
    0 <= start && 0 <= n && start + n <= |b| && forall i :: start <= i < start + n ==> !b[i]
  }

  /** A clear run that cannot be extended on either side. */
  ghost predicate MaximalRun(b: seq<bool>, start: int, n: int) {
    && ClearRun(b, start, n) && n > 0
    && (start > 0 ==> b[start - 1])
    && (start + n < |b| ==> b[start + n])
  }

  /** The first run of n clear bits that starts at or behind the hint, or if there is none, the first of the bitmap. */
  ghost predicate NearestRun(b: seq<bool>, hint: int, n: nat, index: int) {
    && ClearRun(b, index, n)
    && forall k :: ClearRun(b, k, n) ==> if index >= hint then k < hint || index <= k else index <= k < hint
  }

  /** There is just one, if there is a run at all. */
  lemma NearestRunExists(b: seq<bool>, hint: int, n: nat, k: int) returns (index: int)
    requires ClearRun(b, k, n)
    ensures NearestRun(b, hint, n, index) && forall i :: NearestRun(b, hint, n, i) ==> i == index
  {
    var from := if exists i :: i >= hint && ClearRun(b, i, n) then hint else 0;
    index := if from < 0 then 0 else from;
    var some :| some >= from && ClearRun(b, some, n);
    while !ClearRun(b, index, n)
      invariant from <= index <= some && 0 <= index && forall i :: from <= i < index ==> !ClearRun(b, i, n)
      decreases some - index
    {
      index := index + 1;
    }
  }

  /** The number of clear bits in [lo, hi). */
  ghost function ClearIn(b: seq<bool>, lo: nat, hi: nat): nat
    requires lo <= hi <= |b|
  {
    if lo == hi then 0 else ClearIn(b, lo, hi - 1) + if b[hi - 1] then 0 else 1
  }

  lemma {:induction false} ClearInBound(b: seq<bool>, lo: nat, hi: nat)
    requires lo <= hi <= |b|
    ensures ClearIn(b, lo, hi) <= hi - lo
  {
    if lo < hi {
      ClearInBound(b, lo, hi - 1);
    }
  }

  lemma {:induction false} ClearInSplit(b: seq<bool>, lo: nat, mid: nat, hi: nat)
    requires lo <= mid <= hi <= |b|
    ensures ClearIn(b, lo, hi) == ClearIn(b, lo, mid) + ClearIn(b, mid, hi)
  {
    if mid < hi {
      ClearInSplit(b, lo, mid, hi - 1);
    }
  }

  /** Counts depend on the bits alone, not on where the window over them starts. */
  lemma {:induction false} ClearInShift(b: seq<bool>, lo: nat, b': seq<bool>, lo': nat, n: nat)
    requires lo + n <= |b| && lo' + n <= |b'|
    requires forall i :: lo <= i < lo + n ==> b[i] == b'[i - lo + lo']
    ensures ClearIn(b, lo, lo + n) == ClearIn(b', lo', lo' + n)
  {
    if n > 0 {
      ClearInShift(b, lo, b', lo', n - 1);
    }
  }

  lemma {:induction false} ClearInUniform(b: seq<bool>, lo: nat, hi: nat)
    requires lo <= hi <= |b|
    ensures (forall i :: lo <= i < hi ==> !b[i]) ==> ClearIn(b, lo, hi) == hi - lo
    ensures (forall i :: lo <= i < hi ==> b[i]) ==> ClearIn(b, lo, hi) == 0
  {
    if lo < hi {
      ClearInUniform(b, lo, hi - 1);
    }
  }

  lemma {:induction false} ClearInPositive(b: seq<bool>, lo: nat, hi: nat)
    requires lo <= hi <= |b|
    ensures ClearIn(b, lo, hi) > 0 <==> exists i :: lo <= i < hi && !b[i]
  {
    if lo < hi {
      ClearInPositive(b, lo, hi - 1);
    }
  }

  /** Setting a clear run inside [lo, hi) takes exactly its length off the count. */
  lemma ClearInSet(b: seq<bool>, b': seq<bool>, lo: nat, hi: nat, start: nat, n: nat)
    requires |b| == |b'| && lo <= start && start + n <= hi <= |b|
    requires forall i :: start <= i < start + n ==> !b[i] && b'[i]
    requires forall i :: 0 <= i < |b| && !(start <= i < start + n) ==> b'[i] == b[i]
    ensures ClearIn(b', lo, hi) == ClearIn(b, lo, hi) - n
  {
    ClearInSplit(b, lo, start, hi);
    ClearInSplit(b, start, start + n, hi);
    ClearInSplit(b', lo, start, hi);
    ClearInSplit(b', start, start + n, hi);
    ClearInShift(b, lo, b', lo, start - lo);
    ClearInShift(b, start + n, b', start + n, hi - (start + n));
    ClearInUniform(b, start, start + n);
    ClearInUniform(b', start, start + n);
  }

  /** A clear run accounts for as many clear bits as it is long. */
  lemma ClearRunCounts(b: seq<bool>, start: nat, n: nat)
    requires ClearRun(b, start, n)
    ensures n <= ClearIn(b, 0, |b|)
  {
    ClearInSplit(b, 0, start, |b|);
    ClearInSplit(b, start, start + n, |b|);
    ClearInUniform(b, start, start + n);
  }

  /** b with the bits [start, start + n) set. */
  ghost function WithSet(b: seq<bool>, start: int, n: int): seq<bool> {
    seq(|b|, i requires 0 <= i < |b| => b[i] || start <= i < start + n)
  }

  /** b with the bits [start, start + n) cleared. */
  ghost function WithClear(b: seq<bool>, start: int, n: int): seq<bool> {
    seq(|b|, i requires 0 <= i < |b| => b[i] && !(start <= i < start + n))
  }

  /** Setting a clear run takes its length off any count that takes it in, and leaves counts elsewhere alone. */
  lemma CountWithSet(b: seq<bool>, start: nat, n: nat, lo: nat, hi: nat)
    requires ClearRun(b, start, n) && lo <= hi <= |b|
    ensures lo <= start && start + n <= hi ==> ClearIn(WithSet(b, start, n), lo, hi) == ClearIn(b, lo, hi) - n
    ensures hi <= start || start + n <= lo ==> ClearIn(WithSet(b, start, n), lo, hi) == ClearIn(b, lo, hi)
  {
    var b' := WithSet(b, start, n);
    if lo <= start && start + n <= hi {
      ClearInSet(b, b', lo, hi, start, n);
    }
    if hi <= start || start + n <= lo {
      ClearInShift(b, lo, b', lo, hi - lo);
    }
  }

  method SetBits(b: array<bool>, start: nat, n: nat)
    requires start + n <= b.Length
    modifies b
    ensures b[..] == WithSet(old(b[..]), start, n)
  {
    for i := start to start + n
      invariant forall k :: 0 <= k < b.Length ==> b[k] == (old(b[k]) || start <= k < i)
    {
      b[i] := true;
    }
  }

  method ClearBits(b: array<bool>, start: nat, n: nat)
    requires start + n <= b.Length
    modifies b
    ensures b[..] == WithClear(old(b[..]), start, n)
  {
    for i := start to start + n
      invariant forall k :: 0 <= k < b.Length ==> b[k] == (old(b[k]) && !(start <= k < i))
    {
      b[i] := false;
    }
  }

  /** True when the n bits at start exist, are all clear, and n is not zero. */
  method AreBitsClear(b: array<bool>, start: int, n: int) returns (clear: bool)
    ensures clear <==> n > 0 && ClearRun(b[..], start, n)
  {
    if start < 0 || n <= 0 || start + n > b.Length {
      return false;
    }
    var i := start;
    while i < start + n
      invariant start <= i <= start + n
      invariant forall k :: start <= k < i ==> !b[k]
    {
      if b[i] {
        assert !ClearRun(b[..], start, n) by { assert b[..][i]; }
        return false;
      }
      i := i + 1;
    }
    return true;
  }

  /** The first clear run of n bits that starts in [from, b.Length - n], or -1. */
  method FirstClearRun(b: array<bool>, n: nat, from: nat) returns (index: int)
    requires n > 0
    ensures index == -1 || (from <= index && ClearRun(b[..], index, n))
    ensures forall k :: from <= k && (index == -1 || k < index) ==> !ClearRun(b[..], k, n)
  {
    index := from;
    while index + n <= b.Length
      invariant from <= index
      invariant forall k :: from <= k < index ==> !ClearRun(b[..], k, n)
      decreases b.Length - index
    {
      var clear := AreBitsClear(b, index, n);
      if clear {
        return;
      }
      index := index + 1;
    }
    index := -1;
  }

  /**
    Finds n clear bits, searching from the hint and then from the start of the
    bitmap.  It gives up (-1) only when no such run exists anywhere.
   */
  method FindClearBits(b: array<bool>, n: nat, hint: nat) returns (index: int)
    requires n > 0
    ensures index == -1 || NearestRun(b[..], hint, n, index)
    ensures index == -1 <==> forall k :: !ClearRun(b[..], k, n)
  {
    index := FirstClearRun(b, n, hint);
    if index == -1 {
      index := FirstClearRun(b, n, 0);
    }
  }

  /** Among the clear runs that end at or before i, start is the first of the longest ones. */
  ghost predicate LongestUpTo(b: seq<bool>, i: int, length: nat, start: nat) {
    && ClearRun(b, start, length) && start + length <= i
    && forall k, n :: ClearRun(b, k, n) && k + n <= i ==> n <= length && (n == length > 0 ==> start <= k)
  }

  /** One more bit: either it ends every run, or it extends the run [from, i). */
  lemma LongestStep(b: seq<bool>, i: nat, length: nat, start: nat, from: nat)
    requires i < |b| && LongestUpTo(b, i, length, start)
    requires from <= i && ClearRun(b, from, i - from) && (from > 0 ==> b[from - 1])
    ensures b[i] ==> LongestUpTo(b, i + 1, length, start)
    ensures !b[i] && i + 1 - from > length ==> LongestUpTo(b, i + 1, i + 1 - from, from)
    ensures !b[i] && i + 1 - from <= length ==> LongestUpTo(b, i + 1, length, start)
  {
    forall k, n | ClearRun(b, k, n) && k + n == i + 1 && n > 0
      ensures !b[i] && from <= k
    {
      assert !b[i];
    }
  }

  /** The length and the start of the first of the longest clear runs; length 0 when every bit is set. */
  method FindLongestRunClear(b: array<bool>) returns (length: nat, start: nat)
    ensures LongestUpTo(b[..], b.Length, length, start)
    ensures length == 0 ==> start == 0
  {
    length, start := 0, 0;
    var from, i := 0, 0; // [from, i) is clear
    while i < b.Length
      invariant 0 <= from <= i <= b.Length
      invariant ClearRun(b[..], from, i - from) && (from > 0 ==> b[from - 1])
      invariant LongestUpTo(b[..], i, length, start) && (length == 0 ==> start == 0)
    {
      LongestStep(b[..], i, length, start, from);
      if b[i] {
        from := i + 1;
      } else if i + 1 - from > length {
        length, start := i + 1 - from, from;
      }
      i := i + 1;
    }
  }
}
