/**
  When the fragmented allocation stops with clusters still free.  On a FAT32
  volume whose clusters fit one window, the driver treats a run that ends at the
  end of the bitmap as a sign that it should go on in the next window.  There is
  none, so if the request is not yet complete it stops the system.  This module
  says for which bitmaps, hints and requests that happens.
 */
module OneWindow {
  import opened Bits

  /** The number of clear bits at the end of the bitmap. */
  function TailLength(b: seq<bool>): (t: nat)
    ensures t <= |b|
    ensures ClearRun(b, |b| - t, t)
    ensures t < |b| ==> b[|b| - t - 1]
  {
    if |b| == 0 || b[|b| - 1] then 0 else 1 + TailLength(b[..|b| - 1])
  }

  /** Bit i lies in a clear run of at least t bits. */
  ghost predicate InLongRun(b: seq<bool>, i: int, t: nat) {
    exists start, n :: ClearRun(b, start, n) && n >= t && start <= i < start + n
  }

  /** The bits outside the clear runs of at least t bits. */
  ghost function Others(b: seq<bool>, t: nat): seq<bool> {
    seq(|b|, i requires 0 <= i < |b| => !InLongRun(b, i, t))
  }

  /** The number of clear bits in clear runs of at least t bits. */
  ghost function ClearInLongRuns(b: seq<bool>, t: nat): nat {
    ClearIn(Others(b, t), 0, |b|)
  }

  /**
    Whether the fragmented allocation of count clusters, tried first at the hint,
    stops: the bitmap ends in clear bits, and either the hint lies among them and
    too few follow it, or else the clear runs at least as long as the one at the
    end do not suffice.
   */
  ghost predicate StopsAtTail(b: seq<bool>, hint: int, count: nat) {
    var t := TailLength(b);
    && t > 0
    && if |b| - t <= hint - 2 < |b| then |b| - (hint - 2) < count else ClearInLongRuns(b, t) < count
  }

  /** What one pass of the search settles on: where, how much, and what to try next. */
  ghost predicate Chosen(fat32: bool, b: seq<bool>, remaining: nat, hint: int, found: nat, index: nat, next: bool, hint': int) {
    var desired := if 0 <= |b| - (hint - 2) <= remaining then |b| - (hint - 2) else remaining;
    if hint != 0 && desired > 0 && ClearRun(b, hint - 2, desired) then
      found == desired && index == hint - 2 && next == fat32 && hint' == (if fat32 then 2 else 0)
    else if exists k :: ClearRun(b, k, remaining) then
      found == remaining && ClearRun(b, index, found) && !next && hint' == 0
    else
      && LongestUpTo(b, |b|, found, index) && (found == 0 ==> index == 0) && found < remaining
      && next == (fat32 && index + found == |b|) && hint' == (if next then 2 else 0)
  }

  lemma LongRunCounts(b: seq<bool>, t: nat, start: nat, n: nat)
    requires ClearRun(b, start, n) && n >= t
    ensures ClearInLongRuns(b, t) >= n
  {
    var m := Others(b, t);
    assert ClearRun(m, start, n) by {
      forall i | start <= i < start + n ensures !m[i] {
        assert InLongRun(b, i, t);
      }
    }
    ClearRunCounts(m, start, n);
  }

  /** A run long enough for the request rules out that the search stops. */
  lemma LongEnough(b: seq<bool>, start: nat, n: nat)
    requires ClearRun(b, start, n)
    ensures ClearInLongRuns(b, TailLength(b)) >= n
  {
    var t := TailLength(b);
    if n >= t {
      LongRunCounts(b, t, start, n);
    } else {
      LongRunCounts(b, t, |b| - t, t);
    }
  }

  /** Setting a maximal run removes that run from the long ones, and no other. */
  lemma TakingMaximalRun(b: seq<bool>, start: nat, n: nat, t: nat)
    requires MaximalRun(b, start, n) && n >= t
    ensures ClearInLongRuns(WithSet(b, start, n), t) == ClearInLongRuns(b, t) - n
  {
    var b' := WithSet(b, start, n);
    var m, m' := Others(b, t), Others(b', t);
    forall i | 0 <= i < |b|
      ensures start <= i < start + n ==> !m[i] && m'[i]
      ensures !(start <= i < start + n) ==> m'[i] == m[i]
    {
      if start <= i < start + n {
        assert ClearRun(b, start, n);
        assert b'[i];
        forall s, k | ClearRun(b', s, k) && s <= i < s + k ensures false {
        }
      } else {
        forall s, k | ClearRun(b, s, k) && s <= i < s + k ensures ClearRun(b', s, k) {
          RunsApart(b, start, n, s, k, i);
        }
        forall s, k | ClearRun(b', s, k) && s <= i < s + k ensures ClearRun(b, s, k) {
          forall j | s <= j < s + k ensures !b[j] {
            assert !b'[j];
          }
        }
      }
    }
    ClearInSet(m, m', 0, |b|, start, n);
  }

  /** A clear run with a bit outside a maximal run has none inside it. */
  lemma RunsApart(b: seq<bool>, start: nat, n: nat, s: int, k: int, i: int)
    requires MaximalRun(b, start, n) && ClearRun(b, s, k) && s <= i < s + k && !(start <= i < start + n)
    ensures s + k <= start || start + n <= s
  {
  }

  /** The longest run is maximal. */
  lemma LongestIsMaximal(b: seq<bool>, length: nat, start: nat)
    requires LongestUpTo(b, |b|, length, start) && length > 0
    ensures MaximalRun(b, start, length)
  {
    if start > 0 && !b[start - 1] {
      assert ClearRun(b, start - 1, length + 1);
    }
    if start + length < |b| && !b[start + length] {
      assert ClearRun(b, start, length + 1);
    }
  }

  /** A maximal run that ends with the bitmap is its tail. */
  lemma {:induction false} TailIs(b: seq<bool>, start: nat)
    requires start <= |b| && ClearRun(b, start, |b| - start) && (start > 0 ==> b[start - 1])
    ensures TailLength(b) == |b| - start
  {
    if start < |b| {
      assert !b[|b| - 1];
      TailIs(b[..|b| - 1], start);
    }
  }

  /** Taking a run that a set bit separates from the end leaves the tail as it is. */
  lemma TailKept(b: seq<bool>, start: nat, n: nat)
    requires ClearRun(b, start, n) && start + n < |b| && b[start + n]
    ensures TailLength(WithSet(b, start, n)) == TailLength(b)
  {
    var t := TailLength(b);
    var b' := WithSet(b, start, n);
    assert start + n < |b| - t by {
      assert forall i :: |b| - t <= i < |b| ==> !b[i];
    }
    TailIs(b', |b| - t);
  }

  /** When the first of the longest runs is the tail, the tail is the only run as long as itself. */
  lemma OnlyTheTail(b: seq<bool>, length: nat, start: nat)
    requires LongestUpTo(b, |b|, length, start) && length > 0 && start + length == |b|
    ensures TailLength(b) == length && ClearInLongRuns(b, length) == length
  {
    LongestIsMaximal(b, length, start);
    TailIs(b, start);
    var m := Others(b, length);
    forall i | 0 <= i < |b| ensures m[i] == (i < start) {
      if i >= start {
        assert ClearRun(b, start, length);
      } else {
        forall s, k | ClearRun(b, s, k) && k >= length && s <= i < s + k ensures false {
        }
      }
    }
    ClearInSplit(m, 0, start, |b|);
    ClearInUniform(m, 0, start);
    ClearInUniform(m, start, |b|);
  }

  /** How far the search has come: the long runs left and the clusters taken make up the long runs there were. */
  ghost predicate UnderWay(b0: seq<bool>, b: seq<bool>, count: nat, remaining: nat) {
    var t := TailLength(b0);
    && |b| == |b0| && remaining <= count && TailLength(b) == t
    && (t > 0 ==> ClearInLongRuns(b, t) + count == ClearInLongRuns(b0, t) + remaining)
  }

  /** The state of the search between two passes, as far as it bears on whether it will stop. */
  ghost predicate OnCourse(b0: seq<bool>, hint0: int, count: nat, b: seq<bool>, remaining: nat, hint: int, next: bool) {
    var stops := StopsAtTail(b0, hint0, count);
    if remaining == 0 then !stops
    else if next then stops
    else
      || (b == b0 && remaining == count && hint == hint0)
      || (hint == 0 && UnderWay(b0, b, count, remaining)
          && (stops <==> TailLength(b0) > 0 && ClearInLongRuns(b0, TailLength(b0)) < count))
  }

  /** One pass of the search keeps it on course. */
  lemma PassKeepsCourse(b0: seq<bool>, hint0: int, count: nat, b: seq<bool>, remaining: nat, hint: int,
                        found: nat, index: nat, next: bool, hint': int)
    requires hint0 >= 2 && 0 < remaining <= count
    requires OnCourse(b0, hint0, count, b, remaining, hint, false)
    requires Chosen(true, b, remaining, hint, found, index, next, hint') && found > 0
    ensures found <= remaining
    ensures OnCourse(b0, hint0, count, WithSet(b, index, found), remaining - found, hint', next)
  {
    var desired := if 0 <= |b| - (hint - 2) <= remaining then |b| - (hint - 2) else remaining;
    if hint != 0 && desired > 0 && ClearRun(b, hint - 2, desired) {
      HintPass(b0, hint0, count, desired);
    } else {
      if hint != 0 {
        HintFails(b0, hint0, count, desired);
      }
      assert UnderWay(b0, b, count, remaining);
      SearchPass(b0, hint0, count, b, remaining, found, index, next, hint');
    }
  }

  lemma HintPass(b: seq<bool>, hint: int, count: nat, desired: nat)
    requires hint >= 2 && count > 0 && desired > 0 && ClearRun(b, hint - 2, desired)
    requires desired == if 0 <= |b| - (hint - 2) <= count then |b| - (hint - 2) else count
    ensures StopsAtTail(b, hint, count) <==> desired < count
  {
    var t := TailLength(b);
    if desired < count {
      assert hint - 2 >= |b| - t by {
        assert t < |b| ==> b[|b| - t - 1];
      }
    } else {
      LongEnough(b, hint - 2, desired);
    }
  }

  /** A hint in the tail does not fail. */
  lemma HintFails(b: seq<bool>, hint: int, count: nat, desired: nat)
    requires hint >= 2 && count > 0 && !(desired > 0 && ClearRun(b, hint - 2, desired))
    requires desired == if 0 <= |b| - (hint - 2) <= count then |b| - (hint - 2) else count
    ensures !(|b| - TailLength(b) <= hint - 2 < |b|)
  {
  }

  lemma SearchPass(b0: seq<bool>, hint0: int, count: nat, b: seq<bool>, remaining: nat,
                   found: nat, index: nat, next: bool, hint': int)
    requires 0 < remaining <= count && UnderWay(b0, b, count, remaining)
    requires StopsAtTail(b0, hint0, count) <==> TailLength(b0) > 0 && ClearInLongRuns(b0, TailLength(b0)) < count
    requires Chosen(true, b, remaining, 0, found, index, next, hint') && found > 0
    ensures found <= remaining
    ensures OnCourse(b0, hint0, count, WithSet(b, index, found), remaining - found, hint', next)
  {
    var t := TailLength(b0);
    if exists k :: ClearRun(b, k, remaining) {
      LongEnough(b, index, remaining);
    } else {
      LongestIsMaximal(b, found, index);
      if index + found == |b| {
        OnlyTheTail(b, found, index);
      } else {
        assert ClearRun(b, |b| - t, t);
        TailKept(b, index, found);
        if t > 0 {
          TakingMaximalRun(b, index, found, t);
        }
      }
    }
  }

  /** Three free clusters in a bitmap of four, and a request for three: the two at the end are taken, and the search stops; no run of three is there to be found at once. */
  lemma StopsWitness()
    ensures var b := [false, true, false, false];
      ClearIn(b, 0, 4) == 3 && StopsAtTail(b, 2, 3) && forall k :: !ClearRun(b, k, 3)
  {
    var b := [false, true, false, false];
    TailIs(b, 2);
    var m := Others(b, 2);
    assert ClearRun(b, 2, 2);
    forall s, n | ClearRun(b, s, n) && n >= 2 ensures s >= 2 {
      assert s < 2 ==> s <= 1 < s + n;
    }
    assert m[0] && m[1];
    forall k ensures !ClearRun(b, k, 3) {
      if 0 <= k <= 1 {
        assert b[1];
      }
    }
    ClearInUniform(m, 0, 2);
    ClearInSplit(m, 0, 2, 4);
    ClearInBound(m, 2, 4);
    assert ClearIn(b, 0, 1) == 1 && ClearIn(b, 0, 2) == 1 && ClearIn(b, 0, 3) == 2;
  }
}
