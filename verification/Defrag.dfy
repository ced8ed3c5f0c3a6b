/**
  FatDefragDirectory: the entries in use are moved to the front of a directory, set by
  set, and what lies between them becomes free.
 */
module Defrag {
  import opened Bits
  import opened Lfn

  /** A set: the entries of a long name, if there are any, and the short entry or the volume label. */
  datatype Set = Set(start: nat, length: nat)

  /** The query that every entry and the volume label match. */
  function Everything(): Query {
    Query(true, true, _ => true, _ => true)
  }

  predicate InUse(d: Dirent) {
    d[0] != FAT_DIRENT_NEVER_USED && d[0] != FAT_DIRENT_DELETED
  }

  /** An entry that a set ends with. */
  predicate EndsSet(d: Dirent) {
    InUse(d) && Attributes(d) != FAT_DIRENT_ATTR_LFN
  }

  /** A name in progress has been read without a gap, from entries in use at or behind position b. */
  ghost predicate ReadSince(dirents: seq<Dirent>, r: Reader, b: nat, k: nat) {
    && ReaderOk(r) && b <= k <= |dirents| && (forall i :: b <= i < k ==> InUse(dirents[i]))
    && (r.inProgress ==> k == r.lastEntry + 1 && r.size + 13 * b <= 13 * (r.lastEntry + r.ordinal))
  }

  /** The first entry from k on that was never used, or the end. */
  function EndMark(dirents: seq<Dirent>, k: nat): (e: nat)
    requires k <= |dirents|
    ensures k <= e <= |dirents|
    decreases |dirents| - k
  {
    if k == |dirents| || dirents[k][0] == FAT_DIRENT_NEVER_USED then k else EndMark(dirents, k + 1)
  }

  /** What a scan for everything comes to: the next entry that ends a set, behind the entries of its name. */
  ghost predicate NextSet(dirents: seq<Dirent>, start: nat, k: nat, found: Located)
    requires k <= |dirents|
  {
    match found
    case Found(p, name, _) =>
      && k <= p < |dirents| && EndsSet(dirents[p]) && start + DirentsNeeded(name) <= p
      && (forall i :: p - DirentsNeeded(name) <= i < p ==> InUse(dirents[i]))
      && forall i :: k <= i < p ==> dirents[i][0] != FAT_DIRENT_NEVER_USED && !EndsSet(dirents[i])
    case NotFound => forall i :: k <= i < EndMark(dirents, k) ==> !EndsSet(dirents[i])
    case Corrupt => true
  }

  lemma {:induction false} ScanFindsNextSet(dirents: seq<Dirent>, start: nat, b: nat, k: nat, r: Reader)
    requires ReadSince(dirents, r, b, k) && start <= b
    ensures NextSet(dirents, start, k, ScanFrom(dirents, k, r, Everything()))
    decreases |dirents| - k
  {
    if k < |dirents| && dirents[k][0] != FAT_DIRENT_NEVER_USED {
      var d := dirents[k];
      if d[0] == FAT_DIRENT_DELETED {
        ScanFindsNextSet(dirents, start, k + 1, k + 1, r.(inProgress := false));
      } else if Attributes(d) == FAT_DIRENT_ATTR_LFN {
        if !(MayStart(d) && !Continues(r, d) && OrdinalOf(d) == 0) {
          var b' := FedSince(dirents, r, b, k);
          ScanFindsNextSet(dirents, start, b', k + 1, Fed(r, d, k));
        }
      }
    }
  }

  lemma FedSince(dirents: seq<Dirent>, r: Reader, b: nat, k: nat) returns (b': nat)
    requires k < |dirents| && InUse(dirents[k]) && ReadSince(dirents, r, b, k)
    requires MayStart(dirents[k]) && !Continues(r, dirents[k]) ==> OrdinalOf(dirents[k]) > 0
    ensures b <= b' && ReadSince(dirents, Fed(r, dirents[k], k), b', k + 1)
  {
    FedOk(r, dirents[k], k);
    b' := if Continues(r, dirents[k]) then b else k;
  }

  /** One search, from a position on. */
  lemma NextSetFrom(dirents: seq<Dirent>, from: nat)
    requires from <= |dirents|
    ensures NextSet(dirents, from, from, ScanFrom(dirents, from, NoName(), Everything()))
  {
    ScanFindsNextSet(dirents, from, from, from, NoName());
  }

  /** The sets of a directory from a position on, one search after the other. */
  function SetsFrom(dirents: seq<Dirent>, from: nat): seq<Set>
    requires from <= |dirents|
    decreases |dirents| - from
  {
    var found := ScanFrom(dirents, from, NoName(), Everything());
    NextSetFrom(dirents, from);
    if found.Found? then
      [Set(found.position - DirentsNeeded(found.longName), DirentsNeeded(found.longName) + 1)] + SetsFrom(dirents, found.position + 1)
    else []
  }

  /** Whether one of the searches meets an impossible entry. */
  predicate CorruptFrom(dirents: seq<Dirent>, from: nat)
    requires from <= |dirents|
    decreases |dirents| - from
  {
    var found := ScanFrom(dirents, from, NoName(), Everything());
    NextSetFrom(dirents, from);
    found.Corrupt? || (found.Found? && CorruptFrom(dirents, found.position + 1))
  }

  /** Sets lie one behind the other from a position on. */
  ghost predicate InSequence(sets: seq<Set>, from: nat, n: nat) {
    && from <= n
    && (forall i {:trigger sets[i]} :: 0 <= i < |sets| ==> from <= sets[i].start && 0 < sets[i].length && sets[i].start + sets[i].length <= n)
    && forall i, j {:trigger sets[i], sets[j]} :: 0 <= i < j < |sets| ==> sets[i].start + sets[i].length <= sets[j].start
  }

  lemma {:induction false} SetsInSequence(dirents: seq<Dirent>, from: nat)
    requires from <= |dirents|
    ensures InSequence(SetsFrom(dirents, from), from, |dirents|)
    decreases |dirents| - from
  {
    var found := ScanFrom(dirents, from, NoName(), Everything());
    NextSetFrom(dirents, from);
    if found.Found? {
      SetsInSequence(dirents, found.position + 1);
    }
  }

  /** Where the last set ends. */
  function EndOf(sets: seq<Set>, from: nat): nat {
    if sets == [] then from else sets[|sets| - 1].start + sets[|sets| - 1].length
  }

  /** The entries of the sets, one set after the other. */
  function Used(dirents: seq<Dirent>, sets: seq<Set>, n: nat): seq<Dirent>
    requires n <= |sets| && InSequence(sets, 0, |dirents|)
  {
    if n == 0 then [] else Used(dirents, sets, n - 1) + dirents[sets[n - 1].start..sets[n - 1].start + sets[n - 1].length]
  }

  /** How many entries the first n sets have. */
  function Length(sets: seq<Set>, n: nat): nat
    requires n <= |sets|
  {
    if n == 0 then 0 else Length(sets, n - 1) + sets[n - 1].length
  }

  /** A slot lies in one of the first n sets. */
  ghost predicate InSets(sets: seq<Set>, n: nat, k: nat) {
    exists i {:trigger sets[i]} :: 0 <= i < n && i < |sets| && sets[i].start <= k < sets[i].start + sets[i].length
  }

  /** The entries of sets are read as parts of sets: all in use, with the one that ends the set last. */
  ghost predicate SetShape(dirents: seq<Dirent>, s: Set) {
    && 0 < s.length && s.start + s.length <= |dirents| && EndsSet(dirents[s.start + s.length - 1])
    && forall i :: s.start <= i < s.start + s.length - 1 ==> InUse(dirents[i]) && !EndsSet(dirents[i])
  }

  /** What one search means for the rest of the sets. */
  lemma SearchStep(dirents: seq<Dirent>, from: nat, found: Located)
    requires from <= |dirents| && found == ScanFrom(dirents, from, NoName(), Everything())
    ensures found.Corrupt? ==> CorruptFrom(dirents, from)
    ensures found.NotFound? ==> !CorruptFrom(dirents, from) && SetsFrom(dirents, from) == []
    ensures found.Found? ==>
      && from + DirentsNeeded(found.longName) <= found.position < |dirents|
      && CorruptFrom(dirents, from) == CorruptFrom(dirents, found.position + 1)
      && SetsFrom(dirents, from) ==
        [Set(found.position - DirentsNeeded(found.longName), DirentsNeeded(found.longName) + 1)] + SetsFrom(dirents, found.position + 1)
  {
    NextSetFrom(dirents, from);
  }

  ghost predicate AllShaped(dirents: seq<Dirent>, sets: seq<Set>) {
    forall i {:trigger sets[i]} :: 0 <= i < |sets| ==> SetShape(dirents, sets[i])
  }

  /** Every entry before the end marker that ends a set lies in a set. */
  ghost predicate AllCovered(dirents: seq<Dirent>, sets: seq<Set>, from: nat)
    requires from <= |dirents|
  {
    forall k :: from <= k < EndMark(dirents, from) && EndsSet(dirents[k]) ==> InSets(sets, |sets|, k)
  }

  /** Every set has one entry that ends it, and every such entry before the end marker ends a set. */
  lemma {:induction false} SetsCover(dirents: seq<Dirent>, from: nat)
    requires from <= |dirents| && !CorruptFrom(dirents, from)
    ensures AllShaped(dirents, SetsFrom(dirents, from)) && AllCovered(dirents, SetsFrom(dirents, from), from)
    decreases |dirents| - from
  {
    hide ScanFrom;
    hide DirentsNeeded;
    hide SetShape;
    hide InSets;
    var found := ScanFrom(dirents, from, NoName(), Everything());
    NextSetFrom(dirents, from);
    SearchStep(dirents, from, found);
    hide SetsFrom;
    hide CorruptFrom;
    if found.Found? {
      var p := found.position;
      var first := Set(p - DirentsNeeded(found.longName), DirentsNeeded(found.longName) + 1);
      hide AllCovered;
      hide AllShaped;
      SetsCover(dirents, p + 1);
      ConsShaped(dirents, first, SetsFrom(dirents, p + 1));
      ConsCovered(dirents, from, p, first, SetsFrom(dirents, p + 1));
    }
  }

  lemma ConsShaped(dirents: seq<Dirent>, first: Set, rest: seq<Set>)
    requires SetShape(dirents, first) && AllShaped(dirents, rest)
    ensures AllShaped(dirents, [first] + rest)
  {
  }

  lemma ConsCovered(dirents: seq<Dirent>, from: nat, p: nat, first: Set, rest: seq<Set>)
    requires from <= p < |dirents| && first.start <= p < first.start + first.length
    requires forall i :: from <= i < p ==> dirents[i][0] != FAT_DIRENT_NEVER_USED && !EndsSet(dirents[i])
    requires dirents[p][0] != FAT_DIRENT_NEVER_USED && AllCovered(dirents, rest, p + 1)
    ensures AllCovered(dirents, [first] + rest, from)
  {
    EndMarkBeyond(dirents, from, p + 1);
    forall k | from <= k < EndMark(dirents, from) && EndsSet(dirents[k]) ensures InSets([first] + rest, |rest| + 1, k) {
      InFirstOrRest(first, rest, k);
    }
  }

  lemma InFirstOrRest(first: Set, rest: seq<Set>, k: nat)
    requires first.start <= k < first.start + first.length || InSets(rest, |rest|, k)
    ensures InSets([first] + rest, |rest| + 1, k)
  {
    var sets := [first] + rest;
    if first.start <= k < first.start + first.length {
      assert sets[0] == first;
    } else {
      var i :| 0 <= i < |rest| && rest[i].start <= k < rest[i].start + rest[i].length;
      assert sets[i + 1] == rest[i];
    }
  }

  lemma {:induction false} EndMarkBeyond(dirents: seq<Dirent>, k: nat, j: nat)
    requires k <= j <= |dirents| && forall i :: k <= i < j ==> dirents[i][0] != FAT_DIRENT_NEVER_USED
    ensures EndMark(dirents, k) == EndMark(dirents, j)
    decreases j - k
  {
    if k < j {
      EndMarkBeyond(dirents, k + 1, j);
    }
  }

  /** The first step: one search after the other, and how many entries the sets have in all. */
  method FindSets(dirents: array<Dirent>) returns (corrupt: bool, sets: seq<Set>, total: nat)
    ensures corrupt <==> CorruptFrom(dirents[..], 0)
    ensures !corrupt ==> sets == SetsFrom(dirents[..], 0) && total == Length(sets, |sets|)
  {
    ghost var d := dirents[..];
    corrupt, sets, total := false, [], 0;
    var queryOffset, more := 0, true;
    assert SetsFrom(d, 0) == [] + SetsFrom(d, 0);
    hide *;
    LengthOfNone();
    while more
      invariant 0 <= queryOffset <= |d| && total == Length(sets, |sets|)
      invariant FoundSoFar(d, sets, queryOffset)
      invariant !more ==> !CorruptFrom(d, 0) && SetsFrom(d, 0) == sets
      decreases more, |d| - queryOffset
    {
      var found := LocateDirent(dirents, queryOffset, Everything());
      TookSet(d, sets, queryOffset, found);
      match found {
        case Corrupt => return true, sets, total;
        case NotFound => more := false;
        case Found(foundOffset, lfn, _) =>
          var lfnOffset := foundOffset - DirentsNeeded(lfn);
          var s := Set(lfnOffset, foundOffset - lfnOffset + 1);
          sets := sets + [s];
          total := total + s.length;
          queryOffset := foundOffset + 1;
          if queryOffset == dirents.Length {
            AllFound(d, sets);
            more := false;
          }
      }
    }
  }

  /** The sets found so far are those before a position. */
  ghost predicate FoundSoFar(d: seq<Dirent>, sets: seq<Set>, from: nat) {
    from <= |d| && CorruptFrom(d, 0) == CorruptFrom(d, from) && SetsFrom(d, 0) == sets + SetsFrom(d, from)
  }

  lemma TookSet(d: seq<Dirent>, sets: seq<Set>, from: nat, found: Located)
    requires FoundSoFar(d, sets, from) && found == ScanFrom(d, from, NoName(), Everything())
    ensures found.Corrupt? ==> CorruptFrom(d, 0)
    ensures found.NotFound? ==> !CorruptFrom(d, 0) && SetsFrom(d, 0) == sets
    ensures found.Found? ==>
      && from + DirentsNeeded(found.longName) <= found.position < |d|
      && var s := Set(found.position - DirentsNeeded(found.longName), DirentsNeeded(found.longName) + 1);
        FoundSoFar(d, sets + [s], found.position + 1) && Length(sets + [s], |sets| + 1) == Length(sets, |sets|) + s.length
  {
    SearchStep(d, from, found);
    hide SetsFrom;
    hide CorruptFrom;
    hide ScanFrom;
    if found.Found? {
      var s := Set(found.position - DirentsNeeded(found.longName), DirentsNeeded(found.longName) + 1);
      LengthGrows(sets, s);
      Regroup(sets, s, SetsFrom(d, found.position + 1));
    } else if found.NotFound? {
      assert sets + [] == sets;
    }
  }

  lemma AllFound(d: seq<Dirent>, sets: seq<Set>)
    requires FoundSoFar(d, sets, |d|)
    ensures !CorruptFrom(d, 0) && SetsFrom(d, 0) == sets
  {
    NothingBehind(d);
    hide SetsFrom;
    hide CorruptFrom;
    assert sets + [] == sets;
  }

  lemma Regroup(a: seq<Set>, s: Set, b: seq<Set>)
    ensures a + ([s] + b) == (a + [s]) + b
  {
  }

  lemma LengthOfNone()
    ensures Length([], 0) == 0
  {
  }

  lemma NothingBehind(dirents: seq<Dirent>)
    ensures SetsFrom(dirents, |dirents|) == [] && !CorruptFrom(dirents, |dirents|)
  {
  }

  lemma {:induction false} LengthOfPrefix(sets: seq<Set>, s: Set, n: nat)
    requires n <= |sets|
    ensures Length(sets + [s], n) == Length(sets, n)
  {
    if n > 0 {
      LengthOfPrefix(sets, s, n - 1);
    }
  }

  lemma LengthGrows(sets: seq<Set>, s: Set)
    ensures Length(sets + [s], |sets| + 1) == Length(sets, |sets|) + s.length
  {
    LengthOfPrefix(sets, s, |sets|);
  }

  lemma {:induction false} UsedLength(dirents: seq<Dirent>, sets: seq<Set>, n: nat)
    requires n <= |sets| && InSequence(sets, 0, |dirents|)
    ensures |Used(dirents, sets, n)| == Length(sets, n)
  {
    if n > 0 {
      UsedLength(dirents, sets, n - 1);
    }
  }

  /** The second step: the entries of the sets, and those between them, are copied, run by run. */
  method CopyOut(dirents: array<Dirent>, sets: seq<Set>) returns (used: seq<Dirent>, unused: seq<Dirent>)
    requires InSequence(sets, 0, dirents.Length)
    ensures used == Used(dirents[..], sets, |sets|) && |used| == Length(sets, |sets|)
    ensures |used| + |unused| == EndOf(sets, 0)
  {
    ghost var d := dirents[..];
    assert Used(d, sets, 0) == [];
    hide *;
    used, unused := [], [];
    var run, position := 0, 0;
    while run < |sets|
      invariant 0 <= run <= |sets| && position == (if run == 0 then 0 else sets[run - 1].start + sets[run - 1].length) <= dirents.Length
      invariant run < |sets| ==> position <= sets[run].start
      invariant used == Used(d, sets, run) && |used| + |unused| == position
    {
      var s := sets[run];
      NextPlaced(d, sets, run);
      unused := unused + dirents[position..s.start];
      assert d[s.start..s.start + s.length] == dirents[s.start..s.start + s.length];
      used := used + dirents[s.start..s.start + s.length];
      position, run := s.start + s.length, run + 1;
    }
    UsedLength(d, sets, |sets|);
    EndIs(sets);
  }

  lemma {:induction false} NextPlaced(d: seq<Dirent>, sets: seq<Set>, run: nat)
    requires InSequence(sets, 0, |d|) && run < |sets|
    ensures sets[run].start + sets[run].length <= |d|
    ensures run + 1 < |sets| ==> sets[run].start + sets[run].length <= sets[run + 1].start
    ensures Used(d, sets, run + 1) == Used(d, sets, run) + d[sets[run].start..sets[run].start + sets[run].length]
  {
  }

  lemma EndIs(sets: seq<Set>)
    ensures EndOf(sets, 0) == if sets == [] then 0 else sets[|sets| - 1].start + sets[|sets| - 1].length
  {
  }

  ghost predicate AllDeleted(d: seq<Dirent>) {
    forall k :: 0 <= k < |d| ==> d[k][0] == FAT_DIRENT_DELETED
  }

  /** Every entry is marked deleted, so that the entries of orphaned long names are free as well. */
  method MarkDeleted(unused: seq<Dirent>) returns (marked: seq<Dirent>)
    ensures |marked| == |unused| && AllDeleted(marked) && forall k :: 0 <= k < |marked| ==> marked[k] == unused[k][0 := FAT_DIRENT_DELETED]
  {
    marked := [];
    while |marked| < |unused|
      invariant |marked| <= |unused| && forall k :: 0 <= k < |marked| ==> marked[k] == unused[k][0 := FAT_DIRENT_DELETED]
    {
      marked := marked + [unused[|marked|][0 := FAT_DIRENT_DELETED]];
    }
  }

  /** The directory after its sets have been moved to the front: behind them, up to the end of the last set, everything is deleted. */
  ghost predicate Defragged(d: seq<Dirent>, d': seq<Dirent>, sets: seq<Set>) {
    && |d'| == |d| && InSequence(sets, 0, |d|) && Length(sets, |sets|) <= EndOf(sets, 0) <= |d|
    && d'[..Length(sets, |sets|)] == Used(d, sets, |sets|)
    && (forall k :: Length(sets, |sets|) <= k < EndOf(sets, 0) ==> d'[k][0] == FAT_DIRENT_DELETED)
    && forall k {:trigger d'[k]} :: EndOf(sets, 0) <= k < |d| ==> d'[k] == d[k]
  }

  /** Copies entries to the front of a directory, or behind those that are there. */
  method CopyIn(dirents: array<Dirent>, at: nat, from: seq<Dirent>)
    requires at + |from| <= dirents.Length
    modifies dirents
    ensures dirents[..] == old(dirents[..])[..at] + from + old(dirents[..])[at + |from|..]
  {
    for k := 0 to |from|
      invariant dirents[..] == old(dirents[..])[..at] + from[..k] + old(dirents[..])[at + k..]
    {
      ghost var was := dirents[..];
      dirents[at + k] := from[k];
      assert dirents[..] == was[at + k := from[k]];
      assert from[..k + 1] == from[..k] + [from[k]];
    }
  }

  /** How many entries the sets of a directory have in all. */
  ghost function Total(d: seq<Dirent>): nat {
    Length(SetsFrom(d, 0), |SetsFrom(d, 0)|)
  }

  datatype Outcome = NoRoom | Raised | Freed(index: nat)

  /** The permanent step: the two copies are put back, the entries that are not used behind those that are. */
  method Rewrite(dirents: array<Dirent>, sets: seq<Set>, total: nat)
    requires InSequence(sets, 0, dirents.Length) && total == Length(sets, |sets|)
    modifies dirents
    ensures Defragged(old(dirents[..]), dirents[..], sets)
  {
    ghost var d := dirents[..];
    var used, unused := CopyOut(dirents, sets);
    EndInside(sets, dirents.Length);
    hide *;
    var marked := MarkDeleted(unused);
    CopyIn(dirents, 0, used);
    ghost var d1 := dirents[..];
    CopyIn(dirents, total, marked);
    CopiedIn(d, d1, dirents[..], sets, used, marked);
  }

  /** The bitmap after defragmenting: the sets in front are in use, and all the rest is free. */
  method ShowFront(bitmap: array<bool>, total: nat)
    requires total <= bitmap.Length
    modifies bitmap
    ensures forall k :: 0 <= k < bitmap.Length ==> (bitmap[k] <==> k < total)
  {
    SetBits(bitmap, 0, total);
    ClearBits(bitmap, total, bitmap.Length - total);
    assert forall k :: 0 <= k < bitmap.Length ==> bitmap[k] == bitmap[..][k];
  }

  lemma {:induction false} LengthInside(sets: seq<Set>, i: nat, n: nat)
    requires i <= |sets| && InSequence(sets, 0, n)
    ensures Length(sets, i) <= (if i == 0 then 0 else sets[i - 1].start + sets[i - 1].length) <= n
  {
    if i > 0 {
      LengthInside(sets, i - 1, n);
      assert sets[i - 1].start + sets[i - 1].length <= n;
      assert i > 1 ==> sets[i - 2].start + sets[i - 2].length <= sets[i - 1].start;
    }
  }

  /** FatDefragDirectory. */
  method DefragDirectory(dirents: array<Dirent>, bitmap: array<bool>, direntsNeeded: nat) returns (r: Outcome)
    requires bitmap.Length == dirents.Length
    modifies dirents, bitmap
    ensures r.Raised? <==> 32 * dirents.Length <= 0x40000 && CorruptFrom(old(dirents[..]), 0)
    ensures r.NoRoom? <==> 32 * dirents.Length > 0x40000 || (!r.Raised? && direntsNeeded + Total(old(dirents[..])) > dirents.Length)
    ensures r.NoRoom? || r.Raised? ==> dirents[..] == old(dirents[..]) && bitmap[..] == old(bitmap[..])
    ensures r.Freed? ==>
      && Defragged(old(dirents[..]), dirents[..], SetsFrom(old(dirents[..]), 0))
      && r.index == Total(old(dirents[..])) && r.index + direntsNeeded <= dirents.Length
      && forall k :: 0 <= k < bitmap.Length ==> (bitmap[k] <==> k < r.index)
  {
    ghost var d := dirents[..];
    if 32 * dirents.Length > 0x40000 {
      return NoRoom;
    }
    SetsInSequence(d, 0);
    LengthInside(SetsFrom(d, 0), |SetsFrom(d, 0)|, |d|);
    hide *;
    var corrupt, sets, total := FindSets(dirents);
    if corrupt {
      return Raised;
    }
    if direntsNeeded > dirents.Length - total {
      return NoRoom;
    }
    Rewrite(dirents, sets, total);
    ShowFront(bitmap, total);
    r := Freed(total);
  }

  lemma CopiedIn(d: seq<Dirent>, d1: seq<Dirent>, d': seq<Dirent>, sets: seq<Set>, used: seq<Dirent>, marked: seq<Dirent>)
    requires InSequence(sets, 0, |d|) && used == Used(d, sets, |sets|) && |used| == Length(sets, |sets|) && |used| + |marked| == EndOf(sets, 0) <= |d|
    requires AllDeleted(marked)
    requires d1 == d[..0] + used + d[0 + |used|..] && d' == d1[..|used|] + marked + d1[|used| + |marked|..]
    ensures Defragged(d, d', sets)
  {
  }

  lemma EndInside(sets: seq<Set>, n: nat)
    requires InSequence(sets, 0, n)
    ensures EndOf(sets, 0) <= n
  {
    if sets != [] {
      assert sets[|sets| - 1].start + sets[|sets| - 1].length <= n;
    }
  }

  /** The part of a concatenation that comes from set i. */
  lemma {:induction false} UsedPart(d: seq<Dirent>, sets: seq<Set>, n: nat, i: nat)
    requires i < n <= |sets| && InSequence(sets, 0, |d|)
    ensures Length(sets, i) + sets[i].length <= |Used(d, sets, n)| == Length(sets, n)
    ensures Used(d, sets, n)[Length(sets, i)..Length(sets, i) + sets[i].length] == d[sets[i].start..sets[i].start + sets[i].length]
  {
    UsedLength(d, sets, n - 1);
    UsedLength(d, sets, n);
    if i < n - 1 {
      UsedPart(d, sets, n - 1, i);
    }
  }

  /** The sets do not move backwards. */
  lemma {:induction false} FrontOf(sets: seq<Set>, n: nat, i: nat)
    requires i < |sets| && InSequence(sets, 0, n)
    ensures Length(sets, i) <= sets[i].start
  {
    if i > 0 {
      FrontOf(sets, n, i - 1);
      assert sets[i - 1].start + sets[i - 1].length <= sets[i].start;
    }
  }

  lemma PartOfPrefix(d: seq<Dirent>, u: seq<Dirent>, t: nat, n: nat)
    requires |u| <= |d| && d[..|u|] == u && t + n <= |u|
    ensures d[t..t + n] == u[t..t + n]
  {
    forall k | t <= k < t + n ensures d[k] == u[k] {
      assert d[..|u|][k] == d[k];
    }
  }

  /** Defragmenting keeps every set byte for byte, and their order. */
  lemma {:induction false} SetMoved(d: seq<Dirent>, d': seq<Dirent>, sets: seq<Set>, i: nat)
    requires Defragged(d, d', sets) && i < |sets|
    ensures Length(sets, i) <= sets[i].start && Length(sets, i) + sets[i].length <= Length(sets, |sets|)
    ensures d'[Length(sets, i)..Length(sets, i) + sets[i].length] == d[sets[i].start..sets[i].start + sets[i].length]
  {
    hide Defragged;
    DefraggedFront(d, d', sets);
    FrontOf(sets, |d|, i);
    FrontMoved(d, d', sets, i);
  }

  lemma DefraggedFront(d: seq<Dirent>, d': seq<Dirent>, sets: seq<Set>)
    requires Defragged(d, d', sets)
    ensures InSequence(sets, 0, |d|) && |d'| == |d| && Length(sets, |sets|) <= |d'| && d'[..Length(sets, |sets|)] == Used(d, sets, |sets|)
  {
  }

  lemma {:induction false} FrontMoved(d: seq<Dirent>, d': seq<Dirent>, sets: seq<Set>, i: nat)
    requires InSequence(sets, 0, |d|) && i < |sets| && Length(sets, |sets|) <= |d'| && d'[..Length(sets, |sets|)] == Used(d, sets, |sets|)
    ensures Length(sets, i) + sets[i].length <= Length(sets, |sets|)
    ensures d'[Length(sets, i)..Length(sets, i) + sets[i].length] == d[sets[i].start..sets[i].start + sets[i].length]
  {
    hide Used;
    hide Length;
    UsedPart(d, sets, |sets|, i);
    PartOfPrefix(d', Used(d, sets, |sets|), Length(sets, i), sets[i].length);
  }

  /** Two searches find entries with the same name, or both meet an impossible entry. */
  ghost predicate SameFound(found: Located, found': Located, p: nat, p': nat) {
    if found.Found? then found.position == p && found' == found.(position := p') else found.Corrupt? && found'.Corrupt?
  }

  /** The same entries, further to the front, are read the same way. */
  lemma {:induction false} SameScan(d: seq<Dirent>, d': seq<Dirent>, k: nat, m: nat, p: nat, r: Reader, r': Reader)
    requires m <= k <= p < |d| && p - m < |d'| && EndsSet(d[p]) && forall i :: k <= i < p ==> !EndsSet(d[i]) && d[i][0] != FAT_DIRENT_NEVER_USED
    requires forall i :: k <= i <= p ==> d'[i - m] == d[i]
    requires ReaderOk(r) && r' == r.(lastEntry := r'.lastEntry) && (r.inProgress ==> r'.lastEntry + m == r.lastEntry)
    ensures SameFound(ScanFrom(d, k, r, Everything()), ScanFrom(d', k - m, r', Everything()), p, p - m)
    decreases p - k
  {
    var e := d[k];
    assert d'[k - m] == e;
    if k == p {
      SameEnd(d, d', p, m, r, r');
    } else if e[0] == FAT_DIRENT_DELETED {
      ScanSkips(d, k, r);
      ScanSkips(d', k - m, r');
      SameScan(d, d', k + 1, m, p, r.(inProgress := false), r'.(inProgress := false));
    } else {
      FedSame(r, r', e, k, m);
      if MayStart(e) && !Continues(r, e) && OrdinalOf(e) == 0 {
        ScanRaises(d, k, r);
        ScanRaises(d', k - m, r');
      } else {
        ScanFeeds(d, k, r);
        ScanFeeds(d', k - m, r');
        SameScan(d, d', k + 1, m, p, Fed(r, e, k), Fed(r', e, k - m));
      }
    }
    hide ScanFrom;
    hide Fed;
    hide MayStart;
    hide Continues;
    hide OrdinalOf;
  }

  lemma {:induction false} SameEnd(d: seq<Dirent>, d': seq<Dirent>, p: nat, m: nat, r: Reader, r': Reader)
    requires m <= p < |d| && p - m < |d'| && EndsSet(d[p]) && d'[p - m] == d[p]
    requires ReaderOk(r) && r' == r.(lastEntry := r'.lastEntry) && (r.inProgress ==> r'.lastEntry + m == r.lastEntry)
    ensures SameFound(ScanFrom(d, p, r, Everything()), ScanFrom(d', p - m, r', Everything()), p, p - m)
  {
    hide Checksum;
  }

  lemma {:induction false} ScanSkips(d: seq<Dirent>, k: nat, r: Reader)
    requires k < |d| && d[k][0] == FAT_DIRENT_DELETED && ReaderOk(r)
    ensures ScanFrom(d, k, r, Everything()) == ScanFrom(d, k + 1, r.(inProgress := false), Everything())
  {
  }

  lemma {:induction false} ScanRaises(d: seq<Dirent>, k: nat, r: Reader)
    requires k < |d| && InUse(d[k]) && Attributes(d[k]) == FAT_DIRENT_ATTR_LFN && ReaderOk(r)
    requires MayStart(d[k]) && !Continues(r, d[k]) && OrdinalOf(d[k]) == 0
    ensures ScanFrom(d, k, r, Everything()).Corrupt?
  {
  }

  lemma {:induction false} ScanFeeds(d: seq<Dirent>, k: nat, r: Reader)
    requires k < |d| && InUse(d[k]) && Attributes(d[k]) == FAT_DIRENT_ATTR_LFN && ReaderOk(r)
    requires !(MayStart(d[k]) && !Continues(r, d[k]) && OrdinalOf(d[k]) == 0)
    ensures ReaderOk(Fed(r, d[k], k)) && ScanFrom(d, k, r, Everything()) == ScanFrom(d, k + 1, Fed(r, d[k], k), Everything())
  {
    FedOk(r, d[k], k);
    hide Fed;
  }

  /** An entry is taken the same way wherever it is. */
  lemma FedSame(r: Reader, r': Reader, e: Dirent, k: nat, m: nat)
    requires ReaderOk(r) && r' == r.(lastEntry := r'.lastEntry) && (r.inProgress ==> r'.lastEntry + m == r.lastEntry) && m <= k
    ensures ReaderOk(r') && Continues(r', e) == Continues(r, e)
    ensures !(MayStart(e) && !Continues(r, e) && OrdinalOf(e) == 0) ==>
      var f, f' := Fed(r, e, k), Fed(r', e, k - m);
      f' == f.(lastEntry := f'.lastEntry) && (f.inProgress ==> f'.lastEntry + m == f.lastEntry)
  {
    hide MayStart;
    hide OrdinalOf;
    hide Chars;
    hide TailSize;
    hide Put;
  }

  /** A scan that starts at a set reads the same name in the set's new place as it did in the old one. */
  lemma SetReadsTheSame(d: seq<Dirent>, d': seq<Dirent>, sets: seq<Set>, i: nat)
    requires Defragged(d, d', sets) && i < |sets| && SetShape(d, sets[i])
    ensures Length(sets, i) + sets[i].length <= |d'|
    ensures SameFound(ScanFrom(d, sets[i].start, NoName(), Everything()), ScanFrom(d', Length(sets, i), NoName(), Everything()),
      sets[i].start + sets[i].length - 1, Length(sets, i) + sets[i].length - 1)
  {
    SetMoved(d, d', sets, i);
    MovedReadsTheSame(d, d', sets[i], Length(sets, i));
  }

  lemma MovedReadsTheSame(d: seq<Dirent>, d': seq<Dirent>, s: Set, t: nat)
    requires SetShape(d, s) && t <= s.start && t + s.length <= |d'| && d'[t..t + s.length] == d[s.start..s.start + s.length]
    ensures SameFound(ScanFrom(d, s.start, NoName(), Everything()), ScanFrom(d', t, NoName(), Everything()), s.start + s.length - 1, t + s.length - 1)
  {
    forall k | s.start <= k <= s.start + s.length - 1 ensures d'[k - (s.start - t)] == d[k] {
      assert d'[t..t + s.length][k - s.start] == d[s.start..s.start + s.length][k - s.start];
    }
    hide ScanFrom;
    SameScan(d, d', s.start, s.start - t, s.start + s.length - 1, NoName(), NoName());
  }

  /** A short entry with this name. */
  predicate HasShortName(d: Dirent, name: seq<nat>) {
    IsShort(d) && d[..11] == name
  }

  /** The first entry before the end marker with a short name. */
  ghost predicate FirstNamed(d: seq<Dirent>, name: seq<nat>, p: nat) {
    p < EndMark(d, 0) && HasShortName(d[p], name) && forall k :: 0 <= k < p ==> !HasShortName(d[k], name)
  }

  /** FatLocateSimpleOemDirent: a scan that takes no notice of long names. */
  method LocateSimpleDirent(dirents: array<Dirent>, name: seq<nat>) returns (found: int)
    ensures found == -1 ==> forall k :: 0 <= k < EndMark(dirents[..], 0) ==> !HasShortName(dirents[k], name)
    ensures found != -1 ==> 0 <= found && FirstNamed(dirents[..], name, found)
  {
    ghost var d := dirents[..];
    found := 0;
    while found < dirents.Length && dirents[found][0] != FAT_DIRENT_NEVER_USED
      invariant 0 <= found <= dirents.Length && EndMark(d, 0) == EndMark(d, found)
      invariant forall k :: 0 <= k < found ==> !HasShortName(dirents[k], name)
    {
      var e := dirents[found];
      if e[0] != FAT_DIRENT_DELETED && Attributes(e) / FAT_DIRENT_ATTR_VOLUME_ID % 2 == 0 && e[..11] == name {
        return;
      }
      found := found + 1;
    }
    found := -1;
  }

  datatype Offsets = Offsets(direntOffset: int, lfnOffset: int, bad: bool)

  /** An open file or directory of the directory: where its entries are, in slots. */
  class OpenFcb {
    const shortName: seq<nat>
    const deleted: bool
    var direntOffset: int
    var lfnOffset: int
    var bad: bool

    constructor (shortName: seq<nat>, deleted: bool, direntOffset: int, lfnOffset: int)
      ensures this.shortName == shortName && this.deleted == deleted && this.direntOffset == direntOffset && this.lfnOffset == lfnOffset && !bad
    {
      this.shortName, this.deleted, this.direntOffset, this.lfnOffset, bad := shortName, deleted, direntOffset, lfnOffset, false;
    }

    /** Where the file's entries are said to be, as a value. */
    ghost function At(): Offsets
      reads this
    {
      Offsets(direntOffset, lfnOffset, bad)
    }

    /** The file has been found by its short name, at the same distance from its long name as before, or is marked bad. */
    ghost predicate Relocated(d: seq<Dirent>, was: Offsets)
      reads this
    {
      deleted ||
      if bad then
        was.bad || forall k :: 0 <= k < EndMark(d, 0) ==> !HasShortName(d[k], shortName)
      else
        0 <= direntOffset && FirstNamed(d, shortName, direntOffset) && direntOffset - lfnOffset == was.direntOffset - was.lfnOffset
    }

    /** Offsets of the file are those of a set. */
    ghost predicate AtSet(d: seq<Dirent>, at: Offsets, s: Set) {
      && at.lfnOffset == s.start && at.direntOffset == s.start + s.length - 1 && s.length > 0 && s.start + s.length <= |d|
      && HasShortName(d[s.start + s.length - 1], shortName)
    }
  }

  /** The last step: every open file is looked up again by its short name, and keeps the distance to its long name. */
  method FixOffsets(dirents: array<Dirent>, fcbs: seq<OpenFcb>)
    requires forall i, j :: 0 <= i < j < |fcbs| ==> fcbs[i] != fcbs[j]
    modifies fcbs
    ensures forall i {:trigger fcbs[i]} :: 0 <= i < |fcbs| ==> fcbs[i].Relocated(dirents[..], old(fcbs[i].At()))
  {
    var i := 0;
    while i < |fcbs|
      invariant 0 <= i <= |fcbs|
      invariant forall k {:trigger fcbs[k]} :: i <= k < |fcbs| ==> unchanged(fcbs[k])
      invariant forall k {:trigger fcbs[k]} :: 0 <= k < i ==> fcbs[k].Relocated(dirents[..], old(fcbs[k].At()))
    {
      var fcb := fcbs[i];
      if !fcb.deleted {
        var found := LocateSimpleDirent(dirents, fcb.shortName);
        if found == -1 {
          fcb.bad := true;
        } else {
          var previousLfnSpread := fcb.direntOffset - fcb.lfnOffset;
          fcb.direntOffset := found;
          fcb.lfnOffset := found - previousLfnSpread;
        }
      }
      i := i + 1;
    }
  }

  /** Every slot in front of the first n sets' end belongs to one of them. */
  lemma {:induction false} SetOfSlot(sets: seq<Set>, n: nat, k: nat) returns (j: nat)
    requires n <= |sets| && k < Length(sets, n)
    ensures j < n && Length(sets, j) <= k < Length(sets, j) + sets[j].length
  {
    if k >= Length(sets, n - 1) {
      j := n - 1;
    } else {
      j := SetOfSlot(sets, n - 1, k);
    }
  }

  /** No two short entries before the end marker have the same name. */
  ghost predicate UniqueNames(d: seq<Dirent>) {
    forall j, k {:trigger d[j], d[k]} :: 0 <= j < k < EndMark(d, 0) && IsShort(d[j]) && IsShort(d[k]) ==> d[j][..11] != d[k][..11]
  }

  /** A short entry in the front of a defragmented directory is the last entry of a set. */
  lemma {:induction false} ShortEndsSet(d: seq<Dirent>, d': seq<Dirent>, sets: seq<Set>, k: nat) returns (j: nat)
    requires Defragged(d, d', sets) && AllShaped(d, sets) && k < Length(sets, |sets|)
    ensures j < |sets| && Length(sets, j) <= k < Length(sets, j) + sets[j].length && sets[j].start + sets[j].length <= |d|
    ensures d'[k] == d[sets[j].start + (k - Length(sets, j))] && InUse(d'[k])
    ensures IsShort(d'[k]) ==> k == Length(sets, j) + sets[j].length - 1
  {
    j := SetOfSlot(sets, |sets|, k);
    assert SetShape(d, sets[j]);
    SetMoved(d, d', sets, j);
    hide Defragged;
    hide AllShaped;
    hide Length;
    var t, s := Length(sets, j), sets[j];
    assert d'[t..t + s.length][k - t] == d[s.start..s.start + s.length][k - t];
  }

  /** The sets lie before the end marker. */
  lemma {:induction false} SetsBeforeMark(d: seq<Dirent>, from: nat)
    requires from <= |d| && !CorruptFrom(d, from)
    ensures EndOf(SetsFrom(d, from), from) <= EndMark(d, from)
    decreases |d| - from
  {
    var found := ScanFrom(d, from, NoName(), Everything());
    NextSetFrom(d, from);
    SearchStep(d, from, found);
    if found.Found? {
      var p := found.position;
      EndMarkBeyond(d, from, p + 1);
      hide ScanFrom;
      hide SetsFrom;
      hide CorruptFrom;
      SetsBeforeMark(d, p + 1);
    }
  }

  /** With unique short names, the first entry with the name of a set's short entry is that entry, in its new place. */
  lemma {:induction false} NamedAtNewPlace(d: seq<Dirent>, d': seq<Dirent>, sets: seq<Set>, i: nat)
    requires Defragged(d, d', sets) && AllShaped(d, sets) && EndOf(sets, 0) <= EndMark(d, 0) && UniqueNames(d)
    requires i < |sets| && sets[i].start + sets[i].length <= |d| && sets[i].length > 0 && IsShort(d[sets[i].start + sets[i].length - 1])
    ensures var p, name := Length(sets, i) + sets[i].length - 1, d[sets[i].start + sets[i].length - 1][..11];
      && p < EndMark(d', 0) && p < |d'| && HasShortName(d'[p], name) && forall k :: FirstNamed(d', name, k) ==> k == p
  {
    hide *;
    var s := sets[i];
    var p, name := Length(sets, i) + s.length - 1, d[s.start + s.length - 1][..11];
    SetMoved(d, d', sets, i);
    LengthSmall(d, d', sets);
    assert d'[Length(sets, i)..Length(sets, i) + s.length][s.length - 1] == d[s.start..s.start + s.length][s.length - 1];
    forall k | 0 <= k <= p ensures d'[k][0] != FAT_DIRENT_NEVER_USED && (k < p ==> !HasShortName(d'[k], name)) {
      OnlyNamed(d, d', sets, i, k);
    }
    EndMarkBeyond(d', 0, p + 1);
    OnlyFirst(d', d[s.start + s.length - 1], name, p);
  }

  lemma LengthSmall(d: seq<Dirent>, d': seq<Dirent>, sets: seq<Set>)
    requires Defragged(d, d', sets)
    ensures Length(sets, |sets|) <= |d'|
  {
    hide Used;
  }

  lemma OnlyFirst(d: seq<Dirent>, e: Dirent, name: seq<nat>, p: nat)
    requires p < EndMark(d, 0) && p < |d| && d[p] == e && IsShort(e) && name == e[..11]
    requires forall k :: 0 <= k < p ==> !HasShortName(d[k], name)
    ensures HasShortName(d[p], name) && forall k :: FirstNamed(d, name, k) ==> k == p
  {
    hide EndMark;
  }

  lemma {:induction false} OnlyNamed(d: seq<Dirent>, d': seq<Dirent>, sets: seq<Set>, i: nat, k: nat)
    requires Defragged(d, d', sets) && AllShaped(d, sets) && EndOf(sets, 0) <= EndMark(d, 0) && UniqueNames(d)
    requires i < |sets| && sets[i].start + sets[i].length <= |d| && sets[i].length > 0 && IsShort(d[sets[i].start + sets[i].length - 1])
    requires k < Length(sets, i) + sets[i].length <= Length(sets, |sets|)
    ensures d'[k][0] != FAT_DIRENT_NEVER_USED
    ensures HasShortName(d'[k], d[sets[i].start + sets[i].length - 1][..11]) ==> k == Length(sets, i) + sets[i].length - 1
  {
    var j := ShortEndsSet(d, d', sets, k);
    hide UniqueNames;
    EndIsLast(sets, |d|, i);
    EndIsLast(sets, |d|, j);
    EndsApart(sets, |d|, i, j);
    NamesDiffer(d, sets[j].start + sets[j].length - 1, sets[i].start + sets[i].length - 1);
    hide EndMark;
    hide EndOf;
    hide AllShaped;
  }

  /** Entries with different positions have different names. */
  lemma NamesDiffer(d: seq<Dirent>, a: nat, b: nat)
    requires UniqueNames(d)
    ensures a < EndMark(d, 0) && b < EndMark(d, 0) && a != b && IsShort(d[a]) && IsShort(d[b]) ==> d[a][..11] != d[b][..11]
  {
    var low, high := if a < b then a else b, if a < b then b else a;
    if high < EndMark(d, 0) {
      assert d[low] == d[low] && d[high] == d[high];
    }
  }

  /** Different sets have different ends. */
  lemma EndsApart(sets: seq<Set>, n: nat, i: nat, j: nat)
    requires InSequence(sets, 0, n) && i < |sets| && j < |sets|
    ensures sets[i].start + sets[i].length == sets[j].start + sets[j].length ==> i == j
  {
    if i < j {
      assert sets[i].start + sets[i].length <= sets[j].start;
    } else if j < i {
      assert sets[j].start + sets[j].length <= sets[i].start;
    }
  }

  lemma EndIsLast(sets: seq<Set>, n: nat, i: nat)
    requires InSequence(sets, 0, n) && i < |sets|
    ensures sets[i].start + sets[i].length <= EndOf(sets, 0)
  {
    assert i < |sets| - 1 ==> sets[i].start + sets[i].length <= sets[|sets| - 1].start;
  }

  /** An open file whose entries were those of a set has the set's entries in their new place. */
  ghost predicate StaysOnItsSet(fcb: OpenFcb, was: Offsets, d: seq<Dirent>, d': seq<Dirent>, sets: seq<Set>)
    reads fcb
  {
    !fcb.deleted && !was.bad ==>
      forall i {:trigger sets[i]} :: 0 <= i < |sets| && fcb.AtSet(d, was, sets[i]) ==> fcb.AtSet(d', fcb.At(), Set(Length(sets, i), sets[i].length))
  }

  lemma {:induction false} RelocatedStays(fcb: OpenFcb, was: Offsets, d: seq<Dirent>, d': seq<Dirent>, sets: seq<Set>)
    requires fcb.Relocated(d', was) && Defragged(d, d', sets) && AllShaped(d, sets) && EndOf(sets, 0) <= EndMark(d, 0) && UniqueNames(d)
    ensures StaysOnItsSet(fcb, was, d, d', sets)
  {
    if !fcb.deleted && !was.bad {
      forall i {:trigger sets[i]} | 0 <= i < |sets| && fcb.AtSet(d, was, sets[i])
        ensures fcb.AtSet(d', fcb.At(), Set(Length(sets, i), sets[i].length))
      {
        NamedAtNewPlace(d, d', sets, i);
      }
    }
  }

  /** Looks up the open files of a directory that has been defragmented. */
  method FixFiles(dirents: array<Dirent>, fcbs: seq<OpenFcb>, ghost d: seq<Dirent>, ghost sets: seq<Set>)
    requires forall i, j :: 0 <= i < j < |fcbs| ==> fcbs[i] != fcbs[j]
    requires Defragged(d, dirents[..], sets) && AllShaped(d, sets) && EndOf(sets, 0) <= EndMark(d, 0)
    modifies fcbs
    ensures UniqueNames(d) ==> forall k {:trigger fcbs[k]} :: 0 <= k < |fcbs| ==> StaysOnItsSet(fcbs[k], old(fcbs[k].At()), d, dirents[..], sets)
  {
    hide *;
    FixOffsets(dirents, fcbs);
    ghost var d' := dirents[..];
    if UniqueNames(d) {
      forall k | 0 <= k < |fcbs| ensures StaysOnItsSet(fcbs[k], old(fcbs[k].At()), d, d', sets) {
        RelocatedStays(fcbs[k], old(fcbs[k].At()), d, d', sets);
      }
    }
  }

  /**
    FatDefragDirectory with the open files of the directory: with unique short names,
    every open file is left on its own entries.
   */
  method DefragWithFiles(dirents: array<Dirent>, bitmap: array<bool>, direntsNeeded: nat, fcbs: seq<OpenFcb>) returns (r: Outcome)
    requires bitmap.Length == dirents.Length
    requires forall i, j :: 0 <= i < j < |fcbs| ==> fcbs[i] != fcbs[j]
    modifies dirents, bitmap, fcbs
    ensures r.Freed? ==> Defragged(old(dirents[..]), dirents[..], SetsFrom(old(dirents[..]), 0))
    ensures !r.Freed? ==> dirents[..] == old(dirents[..]) && forall k :: 0 <= k < |fcbs| ==> unchanged(fcbs[k])
    ensures r.Freed? && UniqueNames(old(dirents[..])) ==>
      forall k {:trigger fcbs[k]} :: 0 <= k < |fcbs| ==>
        StaysOnItsSet(fcbs[k], old(fcbs[k].At()), old(dirents[..]), dirents[..], SetsFrom(old(dirents[..]), 0))
  {
    hide *;
    ghost var d := dirents[..];
    ghost var sets := SetsFrom(d, 0);
    r := DefragDirectory(dirents, bitmap, direntsNeeded);
    if r.Freed? {
      SetsCover(d, 0);
      SetsBeforeMark(d, 0);
      FixFiles(dirents, fcbs, d, sets);
    }
  }
}
