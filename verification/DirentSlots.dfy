/**
  The slots of a directory: FatRescanDirectory, FatCreateNewDirent and FatDeleteDirent,
  with the bitmap of slots in use and the hints.  Offsets are in slots of 32 bytes.
 */
module DirentSlots {
  import opened Bits
  import opened Lfn
  import opened Defrag

  /** Everything behind the end marker was never used, as long as new clusters are zeroed. */
  ghost predicate EndClean(d: seq<Dirent>) {
    forall k :: EndMark(d, 0) <= k < |d| ==> d[k][0] == FAT_DIRENT_NEVER_USED
  }

  /** Nothing in use lies behind the last set: no orphaned long name. */
  ghost predicate TailClean(d: seq<Dirent>) {
    forall k :: EndOf(SetsFrom(d, 0), 0) <= k < |d| ==> !InUse(d[k])
  }

  /** A slot that cannot be given to a new entry. */
  predicate Blocked(d: seq<Dirent>, k: nat) {
    k >= |d| || InUse(d[k])
  }

  /** A range of slots that are all free. */
  ghost predicate FreeRun(d: seq<Dirent>, start: int, n: int) {
    0 <= start && start + n <= |d| && forall k :: start <= k < start + n ==> !InUse(d[k])
  }

  datatype RunType = InitialRun | FreeDirents | AllocatedDirents

  datatype Creation = Created(offset: nat) | CannotMake | DiskFull | CorruptDirectory

  datatype DirRequest = CreateEntries(entries: seq<Dirent>, diskFull: bool) | DeleteEntries(lfnOffset: nat, direntOffset: nat) | RescanNow

  datatype DirAnswer = Done | Creating(creation: Creation)

  class Dcb {
    const isRoot: bool
    const fat32: bool
    const slotsPerCluster: nat
    var dirents: array<Dirent>
    var bitmap: array<bool>
    var unused: int      // UnusedDirentVbo; -1 when not known
    var deletedHint: nat

    constructor (isRoot: bool, fat32: bool, slotsPerCluster: nat, dirents: array<Dirent>)
      ensures this.isRoot == isRoot && this.fat32 == fat32 && this.slotsPerCluster == slotsPerCluster
      ensures this.dirents == dirents && unused == -1 && fresh(bitmap) && bitmap.Length == dirents.Length
    {
      this.isRoot, this.fat32, this.slotsPerCluster, this.dirents := isRoot, fat32, slotsPerCluster, dirents;
      bitmap := new bool[dirents.Length];
      unused, deletedHint := -1, 0;
    }

    /** The bitmap marks exactly the slots in use, and the slots that were never used are exactly those from a slot on. */
    ghost predicate SlotsOk()
      reads this, dirents, bitmap
    {
      && bitmap.Length == dirents.Length && 0 <= unused <= dirents.Length
      && (forall k :: 0 <= k < dirents.Length ==> (bitmap[k] <==> InUse(dirents[k])))
      && forall k :: 0 <= k < dirents.Length ==> (dirents[k][0] == FAT_DIRENT_NEVER_USED <==> k >= unused)
    }

    /** The bitmap is as long as the directory, whatever it says. */
    predicate SlotsShape()
      reads this
    {
      bitmap.Length == dirents.Length && -1 <= unused <= dirents.Length
    }

    /** The slots are in order, or will be once the directory has been scanned. */
    ghost predicate SlotsReady()
      reads this, dirents, bitmap
    {
      SlotsOk() || (unused == -1 && bitmap.Length == dirents.Length && EndClean(dirents[..]))
    }

    /** What the bitmap and the marker say about the entries. */
    lemma {:induction false} SlotsSay(needed: nat)
      requires SlotsOk()
      ensures unused == EndMark(dirents[..], 0) && EndClean(dirents[..])
      ensures forall k :: FreeRun(dirents[..], k, needed) <==> ClearRun(bitmap[..], k, needed)
    {
      MarkAtUnused(dirents[..], unused, 0);
      forall k ensures FreeRun(dirents[..], k, needed) <==> ClearRun(bitmap[..], k, needed) {
        SlotsSayRun(k, needed);
      }
      hide FreeRun;
      hide ClearRun;
    }

    lemma {:induction false} SlotsSayRun(k: int, n: nat)
      requires SlotsOk()
      ensures FreeRun(dirents[..], k, n) <==> ClearRun(bitmap[..], k, n)
    {
      if 0 <= k && k + n <= dirents.Length {
        assert forall i :: k <= i < k + n ==> bitmap[..][i] == InUse(dirents[..][i]);
      }
    }

    /** Records a run of slots in the bitmap. */
    method RecordRun(start: nat, end: nat, run: RunType)
      requires start <= end <= dirents.Length == bitmap.Length
      modifies bitmap
      ensures forall k :: 0 <= k < bitmap.Length ==> bitmap[k] == if start <= k < end then run.AllocatedDirents? else old(bitmap[k])
    {
      if run.AllocatedDirents? {
        SetBits(bitmap, start, end - start);
      } else {
        ClearBits(bitmap, start, end - start);
      }
      assert forall k :: 0 <= k < bitmap.Length ==> bitmap[k] == bitmap[..][k];
    }

    /** FatRescanDirectory. */
    method Rescan()
      requires bitmap.Length == dirents.Length
      modifies `unused, `deletedHint, bitmap
      ensures unused == EndMark(dirents[..], 0) && deletedHint <= unused
      ensures forall k :: 0 <= k < bitmap.Length ==> (bitmap[k] <==> k < unused && InUse(dirents[k]))
      ensures EndClean(dirents[..]) <==> SlotsOk()
    {
      ghost var d := dirents[..];
      var unusedVbo, hint: int, currentRun, start := 0, -1, InitialRun, 0;
      while unusedVbo < dirents.Length && dirents[unusedVbo][0] != FAT_DIRENT_NEVER_USED
        invariant 0 <= start <= unusedVbo <= dirents.Length && EndMark(d, 0) == EndMark(d, unusedVbo)
        invariant -1 <= hint < unusedVbo || hint == -1
        invariant currentRun.InitialRun? <==> unusedVbo == 0
        invariant forall k :: 0 <= k < unusedVbo ==> dirents[k][0] != FAT_DIRENT_NEVER_USED
        invariant forall k :: 0 <= k < start ==> (bitmap[k] <==> InUse(dirents[k]))
        invariant forall k :: start <= k < unusedVbo ==> (currentRun.AllocatedDirents? <==> InUse(dirents[k]))
      {
        var deleted := dirents[unusedVbo][0] == FAT_DIRENT_DELETED;
        if deleted && hint == -1 {
          hint := unusedVbo;
        }
        if currentRun == InitialRun {
          currentRun := if deleted then FreeDirents else AllocatedDirents;
        } else if currentRun == FreeDirents && !deleted {
          RecordRun(start, unusedVbo, FreeDirents);
          currentRun, start := AllocatedDirents, unusedVbo;
        } else if currentRun == AllocatedDirents && deleted {
          RecordRun(start, unusedVbo, AllocatedDirents);
          currentRun, start := FreeDirents, unusedVbo;
        }
        unusedVbo := unusedVbo + 1;
      }
      RecordRun(start, unusedVbo, currentRun);
      if unusedVbo < dirents.Length {
        RecordRun(unusedVbo, dirents.Length, FreeDirents);
      }
      unused, deletedHint := unusedVbo, if hint == -1 then unusedVbo else hint;
    }

    /** The entries after those of a file have been marked deleted. */
    ghost predicate Deleted(d: seq<Dirent>, d': seq<Dirent>, lfnOffset: nat, direntOffset: nat) {
      |d'| == |d| && forall k {:trigger d'[k]} :: 0 <= k < |d| ==> d'[k] == if lfnOffset <= k <= direntOffset then d[k][0 := FAT_DIRENT_DELETED] else d[k]
    }

    /** The loop of FatDeleteDirent. */
    method MarkDeleted(lfnOffset: nat, direntOffset: nat)
      requires lfnOffset <= direntOffset < dirents.Length
      modifies dirents
      ensures Deleted(old(dirents[..]), dirents[..], lfnOffset, direntOffset)
    {
      for k := lfnOffset to direntOffset + 1
        modifies dirents
        invariant forall i :: 0 <= i < dirents.Length ==>
          dirents[i] == if lfnOffset <= i < k then old(dirents[i])[0 := FAT_DIRENT_DELETED] else old(dirents[i])
      {
        dirents[k] := dirents[k][0 := FAT_DIRENT_DELETED];
      }
    }

    /** FatDeleteDirent: marks the entries of a file deleted and clears their bits. */
    method DeleteDirent(lfnOffset: nat, direntOffset: nat)
      requires lfnOffset <= direntOffset < dirents.Length && SlotsShape()
      modifies `deletedHint, dirents, bitmap
      ensures old(forall k :: lfnOffset <= k <= direntOffset ==> InUse(dirents[k])) ==> (old(SlotsReady()) ==> SlotsReady()) && (old(SlotsOk()) ==> SlotsOk())
      ensures Deleted(old(dirents[..]), dirents[..], lfnOffset, direntOffset)
    {
      ghost var d := dirents[..];
      MarkDeleted(lfnOffset, direntOffset);
      var direntsToDelete := direntOffset - lfnOffset + 1;
      RecordRun(lfnOffset, lfnOffset + direntsToDelete, FreeDirents);
      if direntOffset < deletedHint {
        deletedHint := lfnOffset;
      }
      if forall k :: lfnOffset <= k <= direntOffset ==> InUse(d[k]) {
        SameMark(d, dirents[..], 0);
      }
    }

    /** As long as the same slots were never used, the end marker is where it was. */
    lemma {:induction false} SameMark(d: seq<Dirent>, d': seq<Dirent>, k: nat)
      requires k <= |d| == |d'| && forall i {:trigger d'[i]} :: 0 <= i < |d| ==> (d'[i][0] == FAT_DIRENT_NEVER_USED <==> d[i][0] == FAT_DIRENT_NEVER_USED)
      ensures EndMark(d', k) == EndMark(d, k)
      decreases |d| - k
    {
      if k < |d| && d'[k][0] != FAT_DIRENT_NEVER_USED {
        SameMark(d, d', k + 1);
      }
    }

    /** The slots are in order, but for a range that has been set aside for new entries. */
    ghost predicate SlotsOkBut(from: nat, to: nat)
      reads this, dirents, bitmap
    {
      && bitmap.Length == dirents.Length && from <= to <= unused <= dirents.Length
      && (forall k :: from <= k < to ==> bitmap[k] && !InUse(dirents[k]))
      && (forall k :: 0 <= k < dirents.Length && !(from <= k < to) ==> (bitmap[k] <==> InUse(dirents[k])))
      && forall k :: 0 <= k < dirents.Length && !(from <= k < to) ==> (dirents[k][0] == FAT_DIRENT_NEVER_USED <==> k >= unused)
    }

    /** Touching the byte behind n slots grows the directory by whole clusters, which are zeroed; its bitmap grows with clear bits. */
    method TouchBehind(n: nat)
      requires bitmap.Length == dirents.Length <= n && slotsPerCluster > 0
      modifies `dirents, `bitmap
      ensures fresh(dirents) && fresh(bitmap) && bitmap.Length == dirents.Length > n
      ensures dirents[..old(dirents.Length)] == old(dirents[..]) && bitmap[..old(dirents.Length)] == old(bitmap[..])
      ensures forall k :: old(dirents.Length) <= k < dirents.Length ==> dirents[k][0] == FAT_DIRENT_NEVER_USED && !bitmap[k]
    {
      var size := (n / slotsPerCluster + 1) * slotsPerCluster;
      assert size > n by {
        assert n == n / slotsPerCluster * slotsPerCluster + n % slotsPerCluster;
        assert size == n / slotsPerCluster * slotsPerCluster + slotsPerCluster;
      }
      var d, b := dirents, bitmap;
      var zero: Dirent := seq(32, _ => 0);
      dirents := new Dirent[size](_ => zero);
      bitmap := new bool[size](_ => false);
      for k := 0 to d.Length
        modifies dirents, bitmap
        invariant forall i :: 0 <= i < k ==> dirents[i] == d[i] && bitmap[i] == b[i]
        invariant forall i :: k <= i < size ==> dirents[i] == zero && !bitmap[i]
      {
        dirents[k], bitmap[k] := d[k], b[k];
      }
    }

    /** A single slot is taken right behind an orphaned entry of a long name: that entry is deleted, lest the two be paired. */
    method DropOrphan(offset: nat) returns (corrupt: bool)
      requires 0 < offset <= dirents.Length == bitmap.Length
      modifies dirents, bitmap
      ensures corrupt <==> old(dirents[offset - 1])[0] == FAT_DIRENT_NEVER_USED
      ensures forall k :: 0 <= k < dirents.Length && k != offset - 1 ==> dirents[k] == old(dirents[k]) && bitmap[k] == old(bitmap[k])
      ensures corrupt || !InUse(old(dirents[offset - 1])) || Attributes(old(dirents[offset - 1])) != FAT_DIRENT_ATTR_LFN ==>
        dirents[offset - 1] == old(dirents[offset - 1]) && bitmap[offset - 1] == old(bitmap[offset - 1])
      ensures !corrupt && InUse(old(dirents[offset - 1])) && Attributes(old(dirents[offset - 1])) == FAT_DIRENT_ATTR_LFN ==>
        dirents[offset - 1] == old(dirents[offset - 1])[0 := FAT_DIRENT_DELETED] && !bitmap[offset - 1]
    {
      var d := dirents[offset - 1];
      if d[0] == FAT_DIRENT_NEVER_USED {
        return true;
      }
      corrupt := false;
      if Attributes(d) == FAT_DIRENT_ATTR_LFN && d[0] != FAT_DIRENT_DELETED {
        dirents[offset - 1] := d[0 := FAT_DIRENT_DELETED];
        bitmap[offset - 1] := false;
      }
    }

    /** Slot k held the orphaned entry of a long name right in front of a single slot that was taken, and is deleted. */
    ghost predicate Dropped(d: seq<Dirent>, d': seq<Dirent>, needed: nat, offset: nat, k: nat)
      requires k < |d| && k < |d'|
    {
      needed == 1 && k + 1 == offset && InUse(d[k]) && Attributes(d[k]) == FAT_DIRENT_ATTR_LFN && d'[k] == d[k][0 := FAT_DIRENT_DELETED]
    }

    /** A slot is as it was, or has been dropped and is free. */
    ghost predicate SameOrDropped(d: seq<Dirent>, b: seq<bool>, needed: nat, offset: nat, k: nat)
      requires k < dirents.Length == bitmap.Length == |d| == |b|
      reads this, dirents, bitmap
    {
      || (dirents[k] == d[k] && bitmap[k] == b[k])
      || (Dropped(d, dirents[..], needed, offset, k) && !bitmap[k])
    }

    /** A single entry is not put behind an entry of a long name, with which it could be paired. */
    ghost predicate Unpaired(d: seq<Dirent>, offset: nat, needed: nat)
      requires offset <= |d|
    {
      needed == 1 && offset > (if isRoot then 0 else 2) ==> !(InUse(d[offset - 1]) && Attributes(d[offset - 1]) == 0x0f)
    }

    /** What is set aside: the bits of the range are set, and of the others at most the one in front has changed. */
    ghost predicate Claimed(d1: seq<Dirent>, b1: seq<bool>, offset: nat, needed: nat)
      reads this, dirents, bitmap
    {
      && dirents.Length == bitmap.Length == |d1| == |b1| && offset + needed <= |d1| && Unpaired(dirents[..], offset, needed)
      && forall k {:trigger dirents[k]} {:trigger bitmap[k]} :: 0 <= k < dirents.Length ==>
        if offset <= k < offset + needed then bitmap[k] && dirents[k] == d1[k] else SameOrDropped(d1, b1, needed, offset, k)
    }

    /** What the last checks find wrong: a single slot behind the end marker, or a slot that is not free. */
    ghost predicate Refused(d: seq<Dirent>, offset: nat, needed: nat)
      requires offset <= |d|
    {
      || (needed == 1 && offset > (if isRoot then 0 else 2) && d[offset - 1][0] == FAT_DIRENT_NEVER_USED)
      || exists k :: offset <= k < offset + needed && Blocked(d, k)
    }

    /** The last checks, and setting the slots aside. */
    method Claim(offset: nat, needed: nat, unusedVbo: nat, hint: nat) returns (corrupt: bool)
      requires bitmap.Length == dirents.Length && offset <= dirents.Length && needed > 0
      modifies `unused, `deletedHint, dirents, bitmap
      ensures corrupt <==> Refused(old(dirents[..]), offset, needed)
      ensures !corrupt ==> offset + needed <= dirents.Length && unused == unusedVbo && deletedHint == hint
      ensures corrupt ==> unused == old(unused) && forall k :: 0 <= k < dirents.Length ==> SameOrDropped(old(dirents[..]), old(bitmap[..]), needed, offset, k)
      ensures dirents.Length == bitmap.Length && (!corrupt ==> Claimed(old(dirents[..]), old(bitmap[..]), offset, needed))
    {
      if needed == 1 && offset > (if isRoot then 0 else 2) {
        corrupt := DropOrphan(offset);
        if corrupt {
          return true;
        }
      }
      var i := 0;
      ghost var d := old(dirents[..]);
      assert forall k :: offset <= k < dirents.Length ==> d[k] == dirents[k];
      while i < needed
        invariant 0 <= i <= needed && (i > 0 ==> offset + i <= dirents.Length)
        invariant forall k :: offset <= k < offset + i ==> !Blocked(d, k)
      {
        if offset + i >= dirents.Length || InUse(dirents[offset + i]) {
          assert Blocked(old(dirents[..]), offset + i);
          return true;
        }
        i := i + 1;
      }
      ghost var b := bitmap[..];
      assert forall k :: 0 <= k < dirents.Length ==> SameOrDropped(d, old(bitmap[..]), needed, offset, k);
      RecordRun(offset, offset + needed, AllocatedDirents);
      unused, deletedHint, corrupt := unusedVbo, hint, false;
      forall k | 0 <= k < dirents.Length && !(offset <= k < offset + needed) ensures SameOrDropped(d, old(bitmap[..]), needed, offset, k) {
        assert bitmap[k] == b[k];
      }
    }

    /** There is no room for new entries, neither behind the slots in use nor in a gap. */
    ghost predicate NoGap(d: seq<Dirent>, needed: nat) {
      EndMark(d, 0) + needed > |d| && forall k :: !FreeRun(d, k, needed)
    }

    /** Whether a request makes the driver defragment the directory: a small fixed root directory without room. */
    ghost predicate TriesDefrag(d: seq<Dirent>, needed: nat) {
      isRoot && !fat32 && 32 * |d| <= 0x40000 && NoGap(d, needed)
    }

    /** The directory has no room for new entries as it is, not even when it is defragmented. */
    ghost predicate Full(d: seq<Dirent>, needed: nat) {
      NoGap(d, needed) && (TriesDefrag(d, needed) ==> !CorruptFrom(d, 0) && needed + Total(d) > |d|)
    }

    /** A fixed root directory, or a directory as large as the driver lets one become. */
    predicate CannotGrow(d: seq<Dirent>) {
      32 * |d| >= 64 * 1024 * 32 || (!fat32 && isRoot)
    }

    /** A range of slots that is free, and does not leave a gap behind the slots that were used before. */
    ghost predicate Available(offset: nat, needed: nat, unusedVbo: nat)
      reads this, dirents, bitmap
    {
      && SlotsOk() && offset <= unused && offset + needed <= dirents.Length
      && unusedVbo == (if offset + needed > unused then offset + needed else unused)
      && forall k :: offset <= k < offset + needed ==> !InUse(dirents[k])
    }

    /** What the search for a gap comes to. */
    ghost predicate GapFound(d: seq<Dirent>, b: seq<bool>, needed: nat, raised: bool, index: int)
      reads this, dirents, bitmap
    {
      && (raised <==> TriesDefrag(d, needed) && CorruptFrom(d, 0))
      && (!raised ==> (index == -1 <==> Full(d, needed)))
      && (raised || index == -1 || !TriesDefrag(d, needed) ==> dirents[..] == d && bitmap[..] == b)
      && (!raised && index != -1 && !TriesDefrag(d, needed) ==> index >= 0 && ClearRun(bitmap[..], index, needed))
      && (!raised && index != -1 && TriesDefrag(d, needed) ==>
        && index == Total(d) && index + needed <= dirents.Length && Defragged(d, dirents[..], SetsFrom(d, 0))
        && forall k :: 0 <= k < bitmap.Length ==> (bitmap[k] <==> k < index))
    }

    /** Looks for a gap, from the hint on, and defragments the directory if there is none. */
    method FindGap(needed: nat, hint: nat) returns (raised: bool, index: int)
      requires SlotsShape() && 0 <= unused && needed > 0 && unused + needed > dirents.Length
      modifies dirents, bitmap
      ensures !raised ==> -1 <= index <= dirents.Length
      ensures old(SlotsOk()) ==> GapFound(old(dirents[..]), old(bitmap[..]), needed, raised, index)
    {
      ghost var d := dirents[..];
      if SlotsOk() {
        SlotsSay(needed);
      }
      raised := false;
      index := FindClearBits(bitmap, needed, hint);
      assert index == -1 ==> forall k :: !ClearRun(bitmap[..], k, needed);
      if !fat32 && index == -1 && isRoot && 32 * dirents.Length <= 0x40000 {
        assert SlotsOk() ==> TriesDefrag(d, needed);
        var r := DefragDirectory(dirents, bitmap, needed);
        match r
        case Raised => raised := true;
        case NoRoom => index := -1;
        case Freed(front) => index := front;
      }
    }

    /** A directory has been defragmented to make room. */
    ghost predicate MadeByDefrag(d: seq<Dirent>, d1: seq<Dirent>, b1: seq<bool>, u1: int, offset: nat, needed: nat, unusedVbo: nat) {
      && !CorruptFrom(d, 0) && Defragged(d, d1, SetsFrom(d, 0)) && offset == Total(d) && offset + needed <= |d1|
      && |b1| == |d1| == |d| && 0 <= u1 <= |d1| && (forall k :: 0 <= k < |b1| ==> (b1[k] <==> k < offset))
      && (forall k :: 0 <= k < |d| ==> (d[k][0] == FAT_DIRENT_NEVER_USED <==> k >= u1))
      && unusedVbo == (if offset + needed > u1 then offset + needed else u1)
    }

    /** Slots have been chosen in a directory that held the entries d: by defragmenting it, or without. */
    ghost predicate ChosenBy(d: seq<Dirent>, needed: nat, offset: nat, unusedVbo: nat)
      reads this, dirents, bitmap
    {
      if TriesDefrag(d, needed) then MadeByDefrag(d, dirents[..], bitmap[..], unused, offset, needed, unusedVbo)
      else
        && Available(offset, needed, unusedVbo) && |d| <= dirents.Length && dirents[..|d|] == d
        && forall k :: |d| <= k < dirents.Length ==> dirents[k][0] == FAT_DIRENT_NEVER_USED
    }

    /** What the choice of slots comes to. */
    ghost predicate SlotsChosen(d: seq<Dirent>, needed: nat, diskFull: bool, r: Creation, unusedVbo: nat)
      reads this, dirents, bitmap
    {
      && (r.CorruptDirectory? <==> TriesDefrag(d, needed) && CorruptFrom(d, 0))
      && (r.CannotMake? <==> Full(d, needed) && CannotGrow(d))
      && (r.DiskFull? <==> Full(d, needed) && !CannotGrow(d) && diskFull)
      && (r.Created? ==> ChosenBy(d, needed, r.offset, unusedVbo))
      && (!r.Created? ==> SlotsOk() && dirents[..] == d)
    }

    /** Where new slots are taken: behind the slots in use, or in a gap, or behind the end of the directory, which then grows. */
    method ChooseSlots(needed: nat, diskFull: bool) returns (r: Creation, unusedVbo: nat, hint: nat)
      requires SlotsShape() && 0 <= unused && needed > 0 && slotsPerCluster > 0
      modifies `dirents, `bitmap, dirents, bitmap
      ensures bitmap.Length == dirents.Length && (dirents == old(dirents) || fresh(dirents)) && (bitmap == old(bitmap) || fresh(bitmap))
      ensures old(dirents.Length) <= dirents.Length && (r.Created? ==> r.offset <= dirents.Length)
      ensures r.Created? ==> unusedVbo <= if r.offset + needed > dirents.Length then r.offset + needed else dirents.Length
      ensures old(SlotsOk()) ==> SlotsChosen(old(dirents[..]), needed, diskFull, r, unusedVbo)
    {
      ghost var ready, d, b, u := SlotsOk(), dirents[..], bitmap[..], unused;
      hide SlotsOk;
      hide SlotsChosen;
      hide GapFound;
      unusedVbo, hint := unused, deletedHint;
      if unusedVbo + needed <= dirents.Length {
        r := Created(unusedVbo);
        unusedVbo := unusedVbo + needed;
        if ready {
          ChosenBehind(d, needed, diskFull);
        }
        return;
      }
      var raised, index := FindGap(needed, hint);
      if raised {
        r := CorruptDirectory;
      } else if index != -1 {
        if index == hint {
          hint := hint + needed;
        }
        if index + needed > unusedVbo {
          unusedVbo := index + needed;
        }
        r := Created(index);
      } else if 32 * dirents.Length >= 64 * 1024 * 32 || (!fat32 && isRoot) {
        r := CannotMake;
      } else if diskFull {
        r := DiskFull;
      } else {
        r := Created(unusedVbo);
        unusedVbo := unusedVbo + needed;
        TouchBehind(unusedVbo);
        if ready {
          ChosenGrown(d, b, u, needed, diskFull);
        }
        return;
      }
      if ready {
        ChosenInPlace(d, b, u, needed, diskFull, raised, index, r, unusedVbo);
      }
    }

    /** Entries and bits that were in order. */
    ghost predicate WereOk(d: seq<Dirent>, b: seq<bool>, u: int) {
      && |b| == |d| && 0 <= u <= |d| && (forall k :: 0 <= k < |d| ==> (b[k] <==> InUse(d[k])))
      && forall k :: 0 <= k < |d| ==> (d[k][0] == FAT_DIRENT_NEVER_USED <==> k >= u)
    }

    lemma {:induction false} ChosenBehind(d: seq<Dirent>, needed: nat, diskFull: bool)
      requires SlotsOk() && d == dirents[..] && unused + needed <= dirents.Length
      ensures SlotsChosen(d, needed, diskFull, Created(unused), unused + needed)
    {
      SlotsSay(needed);
      hide EndClean;
      hide FreeRun;
      hide ClearRun;
    }

    lemma {:induction false} ChosenInPlace(d: seq<Dirent>, b: seq<bool>, u: int, needed: nat, diskFull: bool, raised: bool, index: int, r: Creation, unusedVbo: nat)
      requires WereOk(d, b, u) && unused == u && u + needed > |d| && (!raised ==> index >= -1) && bitmap.Length == dirents.Length
      requires GapFound(d, b, needed, raised, index)
      requires r == if raised then CorruptDirectory else if index != -1 then Created(index) else if CannotGrow(d) then CannotMake else DiskFull
      requires !raised && index != -1 ==> unusedVbo == if index + needed > u then index + needed else u
      requires r.DiskFull? ==> diskFull
      ensures SlotsChosen(d, needed, diskFull, r, unusedVbo)
    {
      if dirents[..] == d && bitmap[..] == b {
        SlotsWere(d, b, u);
        if r.Created? && !TriesDefrag(d, needed) {
          GapAvailable(index, needed, unusedVbo);
        }
      }
      hide FreeRun;
      hide NoGap;
      hide Defragged;
      hide SetsFrom;
      hide CorruptFrom;
      hide Total;
      hide Available;
      hide InUse;
      hide ClearRun;
    }

    lemma SlotsWere(d: seq<Dirent>, b: seq<bool>, u: int)
      requires WereOk(d, b, u) && dirents[..] == d && bitmap[..] == b && unused == u
      ensures SlotsOk()
    {
      hide InUse;
    }

    lemma {:induction false} ChosenGrown(d: seq<Dirent>, b: seq<bool>, u: int, needed: nat, diskFull: bool)
      requires WereOk(d, b, u) && unused == u && u + needed > |d| && !CannotGrow(d) && !diskFull && needed > 0
      requires bitmap.Length == dirents.Length > u + needed && |d| <= dirents.Length && dirents[..|d|] == d && bitmap[..|d|] == b
      requires forall k :: |d| <= k < dirents.Length ==> dirents[k][0] == FAT_DIRENT_NEVER_USED && !bitmap[k]
      ensures SlotsChosen(d, needed, diskFull, Created(u), u + needed)
    {
      assert forall k :: 0 <= k < |d| ==> dirents[k] == d[k] && bitmap[k] == b[k];
      assert !TriesDefrag(d, needed);
      hide NoGap;
      hide SetsFrom;
      hide CorruptFrom;
      hide Total;
    }

    /** A clear run in a full directory starts before the end of what is in use. */
    lemma {:induction false} GapAvailable(index: nat, needed: nat, unusedVbo: nat)
      requires SlotsOk() && unused + needed > dirents.Length && ClearRun(bitmap[..], index, needed)
      requires unusedVbo == (if index + needed > unused then index + needed else unused)
      ensures Available(index, needed, unusedVbo)
    {
      forall k | index <= k < index + needed ensures !InUse(dirents[k]) {
        assert !bitmap[..][k];
      }
    }

    /** After defragmenting, the slots are in order if no orphaned long name lay behind the last set. */
    lemma {:induction false} DefraggedInOrder(d: seq<Dirent>, offset: nat, needed: nat, unusedVbo: nat)
      requires bitmap.Length == dirents.Length && 0 <= unused <= dirents.Length && !CorruptFrom(d, 0) && TailClean(d)
      requires Defragged(d, dirents[..], SetsFrom(d, 0)) && offset == Total(d) && offset + needed <= dirents.Length
      requires forall k :: 0 <= k < |d| ==> (d[k][0] == FAT_DIRENT_NEVER_USED <==> k >= unused)
      requires forall k :: 0 <= k < bitmap.Length ==> (bitmap[k] <==> k < offset)
      requires unusedVbo == (if offset + needed > unused then offset + needed else unused)
      ensures Available(offset, needed, unusedVbo)
    {
      var d', sets := dirents[..], SetsFrom(d, 0);
      SetsCover(d, 0);
      SetsBeforeMark(d, 0);
      MarkAtUnused(d, unused, 0);
      forall k | 0 <= k < |d'|
        ensures InUse(dirents[k]) <==> k < offset
        ensures dirents[k][0] == FAT_DIRENT_NEVER_USED <==> k >= unused
      {
        if k < offset {
          var j := ShortEndsSet(d, d', sets, k);
          assert dirents[k] == d'[k];
        } else if k < EndOf(sets, 0) {
          assert d'[k][0] == FAT_DIRENT_DELETED;
        } else {
          assert d'[k] == d[k];
        }
      }
    }

    /** The end marker is where the slots that were never used begin. */
    lemma {:induction false} MarkAtUnused(d: seq<Dirent>, unused: nat, k: nat)
      requires k <= unused <= |d| && forall i :: 0 <= i < |d| ==> (d[i][0] == FAT_DIRENT_NEVER_USED <==> i >= unused)
      ensures EndMark(d, k) == unused
      decreases unused - k
    {
      if k < unused {
        MarkAtUnused(d, unused, k + 1);
      }
    }

    /** An orphaned long name that lies where a defragmented directory would put new entries. */
    ghost predicate OrphanInTheWay(d: seq<Dirent>, needed: nat) {
      && !CorruptFrom(d, 0) && Total(d) + needed <= |d|
      && exists k :: EndOf(SetsFrom(d, 0), 0) <= k < Total(d) + needed && Blocked(d, k)
    }

    /** In a defragmented directory, only orphaned long names behind the last set can block new entries. */
    lemma {:induction false} BlockedByOrphan(d: seq<Dirent>, d': seq<Dirent>, offset: nat, needed: nat)
      requires !CorruptFrom(d, 0) && Defragged(d, d', SetsFrom(d, 0)) && offset == Total(d) && offset + needed <= |d|
      ensures OrphanInTheWay(d, needed) <==> exists k :: offset <= k < offset + needed && Blocked(d', k)
      ensures offset > 0 ==> d'[offset - 1][0] != FAT_DIRENT_NEVER_USED
    {
      hide *;
      var sets := SetsFrom(d, 0);
      TotalIs(d);
      DefraggedShape(d, d', sets);
      SetsCover(d, 0);
      if offset > 0 {
        BeforeOffset(d, d', sets, offset);
      }
      forall k | offset <= k < offset + needed ensures Blocked(d', k) <==> k >= EndOf(sets, 0) && Blocked(d, k) {
        BlockedBehind(d, d', sets, k);
      }
      BlockedSomewhere(d, d', offset, needed);
    }

    lemma {:induction false} DefraggedShape(d: seq<Dirent>, d': seq<Dirent>, sets: seq<Set>)
      requires Defragged(d, d', sets)
      ensures |d'| == |d| && Length(sets, |sets|) <= EndOf(sets, 0)
    {
      hide EndOf;
      hide Length;
    }

    lemma {:induction false} BeforeOffset(d: seq<Dirent>, d': seq<Dirent>, sets: seq<Set>, offset: nat)
      requires Defragged(d, d', sets) && AllShaped(d, sets) && 0 < offset == Length(sets, |sets|) && offset <= |d'|
      ensures d'[offset - 1][0] != FAT_DIRENT_NEVER_USED
    {
      hide Defragged;
      hide AllShaped;
      hide Length;
      hide Attributes;
      var j := ShortEndsSet(d, d', sets, offset - 1);
    }

    lemma TotalIs(d: seq<Dirent>)
      ensures Total(d) == Length(SetsFrom(d, 0), |SetsFrom(d, 0)|)
    {
    }

    lemma {:induction false} BlockedBehind(d: seq<Dirent>, d': seq<Dirent>, sets: seq<Set>, k: nat)
      requires Defragged(d, d', sets) && Length(sets, |sets|) <= k < |d|
      ensures Blocked(d', k) <==> k >= EndOf(sets, 0) && Blocked(d, k)
    {
      if k >= EndOf(sets, 0) {
        assert d'[k] == d[k];
      } else {
        assert d'[k][0] == FAT_DIRENT_DELETED;
      }
    }

    lemma {:induction false} BlockedSomewhere(d: seq<Dirent>, d': seq<Dirent>, offset: nat, needed: nat)
      requires !CorruptFrom(d, 0) && offset == Total(d) && offset + needed <= |d|
      requires forall k :: offset <= k < offset + needed ==> (Blocked(d', k) <==> k >= EndOf(SetsFrom(d, 0), 0) && Blocked(d, k))
      requires Length(SetsFrom(d, 0), |SetsFrom(d, 0)|) <= EndOf(SetsFrom(d, 0), 0)
      ensures OrphanInTheWay(d, needed) <==> exists k :: offset <= k < offset + needed && Blocked(d', k)
    {
      hide Blocked;
      hide SetsFrom;
      hide EndOf;
      hide CorruptFrom;
    }

    /** In a defragmented directory, the entry in front of the free slots ends a set. */
    lemma {:induction false} LastEndsSet(d: seq<Dirent>, d': seq<Dirent>, sets: seq<Set>)
      requires Defragged(d, d', sets) && AllShaped(d, sets) && 0 < Length(sets, |sets|)
      ensures Length(sets, |sets|) <= |d'| && EndsSet(d'[Length(sets, |sets|) - 1])
    {
      var i: nat := |sets| - 1;
      var s := sets[i];
      assert SetShape(d, s);
      SetMoved(d, d', sets, i);
      assert d'[Length(sets, i)..Length(sets, i) + s.length][s.length - 1] == d[s.start..s.start + s.length][s.length - 1];
    }

    /** A defragmented directory has an entry in use behind the sets exactly when there was an orphaned long name behind the last set. */
    lemma {:induction false} OrphanBehind(d: seq<Dirent>, d': seq<Dirent>, sets: seq<Set>) returns (k: nat)
      requires Defragged(d, d', sets) && sets == SetsFrom(d, 0) && !TailClean(d)
      ensures Length(sets, |sets|) <= k < |d'| && InUse(d'[k])
    {
      hide Length;
      hide Used;
      hide InSequence;
      k :| EndOf(sets, 0) <= k < |d| && InUse(d[k]);
      assert d'[k] == d[k];
    }

    /** Whether a request makes the driver defragment a directory with an orphaned long name behind its last set, of which it loses sight. */
    ghost predicate MeetsOrphan(d: seq<Dirent>, needed: nat) {
      TriesDefrag(d, needed) && !CorruptFrom(d, 0) && Total(d) + needed <= |d| && !TailClean(d)
    }

    /** How a request for slots is answered. */
    ghost predicate Answers(d: seq<Dirent>, needed: nat, diskFull: bool, r: Creation) {
      && (r.CorruptDirectory? <==> TriesDefrag(d, needed) && (CorruptFrom(d, 0) || OrphanInTheWay(d, needed)))
      && (r.CannotMake? <==> Full(d, needed) && CannotGrow(d))
      && (r.DiskFull? <==> Full(d, needed) && !CannotGrow(d) && diskFull)
    }

    /**
      When a request is refused for want of room.  A fixed root directory of at most 8192
      slots has room if its sets and the new entries fit; a larger one, if there is a gap.
      Any other directory grows, until it has 65536 slots.
     */
    lemma RefusedWhen(d: seq<Dirent>, needed: nat, diskFull: bool, r: Creation)
      requires Answers(d, needed, diskFull, r)
      ensures !NoGap(d, needed) ==> r.Created?
      ensures NoGap(d, needed) && (!isRoot || fat32) ==>
        r.CannotMake? == (|d| >= 65536) && r.DiskFull? == (|d| < 65536 && diskFull) && !r.CorruptDirectory?
      ensures NoGap(d, needed) && isRoot && !fat32 && |d| <= 8192 ==>
        r.CannotMake? == (!CorruptFrom(d, 0) && Total(d) + needed > |d|) && !r.DiskFull?
      ensures NoGap(d, needed) && isRoot && !fat32 && |d| > 8192 ==> r.CannotMake?
    {
      hide NoGap;
      hide SetsFrom;
      hide CorruptFrom;
      hide Total;
    }

    /** Free slots have been found for new entries; every live entry is still there, in its place or, after defragmenting, in its set. */
    ghost predicate RoomMade(d: seq<Dirent>, d': seq<Dirent>, offset: nat, needed: nat) {
      && offset + needed <= |d'| && (forall k :: offset <= k < offset + needed ==> !InUse(d'[k])) && Unpaired(d', offset, needed)
      && if TriesDefrag(d, needed) then Defragged(d, d', SetsFrom(d, 0)) && offset == Total(d)
         else KeptOrDropped(d, d', offset, needed)
    }

    ghost predicate KeptOrDropped(d: seq<Dirent>, d': seq<Dirent>, offset: nat, needed: nat) {
      && |d| <= |d'|
      && (forall k :: offset <= k < offset + needed && k < |d| ==> !InUse(d[k]))
      && (forall k {:trigger d'[k]} {:trigger d[k]} :: 0 <= k < |d| ==> d'[k] == d[k] || Dropped(d, d', needed, offset, k))
      && forall k {:trigger d'[k]} :: |d| <= k < |d'| ==> d'[k][0] == FAT_DIRENT_NEVER_USED
    }

    /** In a defragmented directory, the entry in front of the free slots is not dropped. */
    lemma {:induction false} NothingToDrop(d: seq<Dirent>, d1: seq<Dirent>, offset: nat)
      requires Defragged(d, d1, SetsFrom(d, 0)) && !CorruptFrom(d, 0) && offset == Total(d)
      ensures 0 < offset ==> offset <= |d1| && Attributes(d1[offset - 1]) != FAT_DIRENT_ATTR_LFN
    {
      SetsCover(d, 0);
      TotalIs(d);
      if offset > 0 {
        LastEndsSet(d, d1, SetsFrom(d, 0));
      }
      hide Defragged;
      hide SetsFrom;
      hide CorruptFrom;
      hide AllShaped;
      hide Total;
    }

    /** Available slots that have been set aside leave the others in order. */
    lemma {:induction false} ClaimedInOrder(d1: seq<Dirent>, b1: seq<bool>, u1: nat, offset: nat, needed: nat)
      requires Claimed(d1, b1, offset, needed) && offset <= u1 <= |d1|
      requires forall k :: 0 <= k < |d1| ==> (b1[k] <==> InUse(d1[k])) && (d1[k][0] == FAT_DIRENT_NEVER_USED <==> k >= u1)
      requires forall k :: offset <= k < offset + needed ==> !InUse(d1[k])
      requires unused == if offset + needed > u1 then offset + needed else u1
      ensures SlotsOkBut(offset, offset + needed)
    {
      hide Attributes;
    }

    /** Without defragmenting, every entry is kept, or dropped. */
    lemma {:induction false} ClaimedKeeps(d: seq<Dirent>, d1: seq<Dirent>, b1: seq<bool>, offset: nat, needed: nat)
      requires Claimed(d1, b1, offset, needed) && |d| <= |d1| && d1[..|d|] == d
      requires forall k :: |d| <= k < |d1| ==> d1[k][0] == FAT_DIRENT_NEVER_USED
      requires forall k :: offset <= k < offset + needed ==> !InUse(d1[k])
      ensures KeptOrDropped(d, dirents[..], offset, needed) && forall k :: offset <= k < offset + needed ==> !InUse(dirents[k])
    {
      assert forall k :: 0 <= k < |d| ==> d1[k] == d[k];
      hide Attributes;
    }

    /** In a defragmented directory nothing else changes. */
    lemma {:induction false} ClaimedKeepsAll(d1: seq<Dirent>, b1: seq<bool>, offset: nat, needed: nat)
      requires Claimed(d1, b1, offset, needed) && (0 < offset ==> Attributes(d1[offset - 1]) != FAT_DIRENT_ATTR_LFN)
      ensures dirents[..] == d1 && forall k :: 0 <= k < |d1| && !(offset <= k < offset + needed) ==> bitmap[k] == b1[k]
    {
      hide Attributes;
    }

    lemma {:induction false} UnclaimedKeepsAll(d1: seq<Dirent>, b1: seq<bool>, offset: nat, needed: nat)
      requires dirents.Length == bitmap.Length == |d1| == |b1| && (0 < offset ==> offset <= |d1| && Attributes(d1[offset - 1]) != FAT_DIRENT_ATTR_LFN)
      requires forall k :: 0 <= k < dirents.Length ==> SameOrDropped(d1, b1, needed, offset, k)
      ensures dirents[..] == d1 && bitmap[..] == b1
    {
      forall k | 0 <= k < |d1| ensures dirents[k] == d1[k] && bitmap[k] == b1[k] {
        assert SameOrDropped(d1, b1, needed, offset, k);
      }
      hide Attributes;
    }

    /** After defragmenting, the slots are not in order if there was an orphaned long name behind the last set. */
    lemma {:induction false} DisorderedByOrphan(d: seq<Dirent>, offset: nat, from: nat, to: nat)
      requires bitmap.Length == dirents.Length && Defragged(d, dirents[..], SetsFrom(d, 0)) && offset == Total(d) <= from <= to
      requires forall k :: offset <= k < dirents.Length && !(from <= k < to) ==> !bitmap[k]
      requires forall k :: from <= k < to && k < dirents.Length ==> !InUse(dirents[k])
      requires !TailClean(d)
      ensures !SlotsOkBut(from, to) && (from == to ==> !SlotsOk())
    {
      TotalIs(d);
      var k := OrphanBehind(d, dirents[..], SetsFrom(d, 0));
      hide Defragged;
      hide SetsFrom;
      hide Total;
      hide TailClean;
      assert InUse(dirents[k]) && !(from <= k < to);
      assert !bitmap[k];
    }

    /** Available, for given entries, bits and marker. */
    ghost predicate AvailableIn(d1: seq<Dirent>, b1: seq<bool>, u1: int, offset: nat, needed: nat, unusedVbo: nat) {
      && |b1| == |d1| && offset <= u1 <= |d1| && offset + needed <= |d1|
      && unusedVbo == (if offset + needed > u1 then offset + needed else u1)
      && (forall k :: 0 <= k < |d1| ==> (b1[k] <==> InUse(d1[k])) && (d1[k][0] == FAT_DIRENT_NEVER_USED <==> k >= u1))
      && forall k :: offset <= k < offset + needed ==> !InUse(d1[k])
    }

    lemma {:induction false} AvailableNow(offset: nat, needed: nat, unusedVbo: nat)
      requires Available(offset, needed, unusedVbo)
      ensures AvailableIn(dirents[..], bitmap[..], unused, offset, needed, unusedVbo) && !Refused(dirents[..], offset, needed)
    {
    }

    /** What becomes of a claim without defragmenting. */
    lemma {:induction false} PlainResult(d: seq<Dirent>, d1: seq<Dirent>, b1: seq<bool>, u1: int, offset: nat, needed: nat, unusedVbo: nat)
      requires AvailableIn(d1, b1, u1, offset, needed, unusedVbo) && Claimed(d1, b1, offset, needed) && unused == unusedVbo
      requires !TriesDefrag(d, needed) && |d| <= |d1| && d1[..|d|] == d
      requires forall k :: |d| <= k < |d1| ==> d1[k][0] == FAT_DIRENT_NEVER_USED
      ensures RoomMade(d, dirents[..], offset, needed) && SlotsOkBut(offset, offset + needed) && offset + needed <= unused <= dirents.Length
      ensures forall k :: offset <= k < offset + needed ==> bitmap[k]
    {
      ClaimedInOrder(d1, b1, u1, offset, needed);
      ClaimedKeeps(d, d1, b1, offset, needed);
      hide SameOrDropped;
      hide KeptOrDropped;
    }

    /** What becomes of a claim after defragmenting. */
    lemma {:induction false} DefragResult(d: seq<Dirent>, d1: seq<Dirent>, b1: seq<bool>, u1: int, offset: nat, needed: nat, unusedVbo: nat)
      requires MadeByDefrag(d, d1, b1, u1, offset, needed, unusedVbo) && TriesDefrag(d, needed) && needed > 0
      requires Claimed(d1, b1, offset, needed) && unused == unusedVbo && !Refused(d1, offset, needed)
      requires TailClean(d) ==> AvailableIn(d1, b1, u1, offset, needed, unusedVbo)
      ensures RoomMade(d, dirents[..], offset, needed) && (SlotsOkBut(offset, offset + needed) <==> TailClean(d))
      ensures offset + needed <= unused <= dirents.Length && forall k :: offset <= k < offset + needed ==> bitmap[k]
    {
      NothingToDrop(d, d1, offset);
      ClaimedKeepsAll(d1, b1, offset, needed);
      hide Defragged;
      hide SetsFrom;
      hide CorruptFrom;
      hide Total;
      hide TailClean;
      hide TriesDefrag;
      hide SameOrDropped;
      forall k | offset <= k < offset + needed ensures !InUse(d1[k]) {
        assert !Blocked(d1, k);
      }
      if TailClean(d) {
        ClaimedInOrder(d1, b1, u1, offset, needed);
      } else {
        DisorderedByOrphan(d, offset, offset, offset + needed);
      }
    }

    lemma {:induction false} DefragRefused(d: seq<Dirent>, d1: seq<Dirent>, b1: seq<bool>, u1: int, offset: nat, needed: nat, unusedVbo: nat)
      requires MadeByDefrag(d, d1, b1, u1, offset, needed, unusedVbo) && OrphanInTheWay(d, needed)
      requires dirents.Length == bitmap.Length == |d1| && forall k :: 0 <= k < dirents.Length ==> SameOrDropped(d1, b1, needed, offset, k)
      ensures dirents[..] == d1 && !TailClean(d) && !SlotsOk()
    {
      NothingToDrop(d, d1, offset);
      UnclaimedKeepsAll(d1, b1, offset, needed);
      OrphanIsBehind(d, needed);
      hide Defragged;
      hide SetsFrom;
      hide CorruptFrom;
      hide Total;
      hide TailClean;
      hide OrphanInTheWay;
      hide SameOrDropped;
      DisorderedByOrphan(d, offset, offset, offset);
    }

    lemma {:induction false} OrphanIsBehind(d: seq<Dirent>, needed: nat)
      requires OrphanInTheWay(d, needed)
      ensures !TailClean(d)
    {
      hide SetsFrom;
      hide CorruptFrom;
      hide Total;
      hide EndOf;
    }

    /** The slots chosen, before the last checks. */
    ghost predicate Chosen(d: seq<Dirent>, d1: seq<Dirent>, b1: seq<bool>, u1: int, offset: nat, needed: nat, unusedVbo: nat) {
      && offset <= |d1|
      && if TriesDefrag(d, needed) then
           && MadeByDefrag(d, d1, b1, u1, offset, needed, unusedVbo) && (Refused(d1, offset, needed) <==> OrphanInTheWay(d, needed))
           && (TailClean(d) ==> AvailableIn(d1, b1, u1, offset, needed, unusedVbo))
         else
           && AvailableIn(d1, b1, u1, offset, needed, unusedVbo) && !Refused(d1, offset, needed) && |d| <= |d1| && d1[..|d|] == d
           && forall k :: |d| <= k < |d1| ==> d1[k][0] == FAT_DIRENT_NEVER_USED
    }

    lemma {:induction false} BeforeClaim(d: seq<Dirent>, needed: nat, offset: nat, unusedVbo: nat)
      requires ChosenBy(d, needed, offset, unusedVbo) && bitmap.Length == dirents.Length
      ensures offset <= dirents.Length && Chosen(d, dirents[..], bitmap[..], unused, offset, needed, unusedVbo)
    {
      if TriesDefrag(d, needed) {
        BlockedByOrphan(d, dirents[..], offset, needed);
        if TailClean(d) {
          DefraggedInOrder(d, offset, needed, unusedVbo);
          AvailableNow(offset, needed, unusedVbo);
        }
      } else {
        AvailableNow(offset, needed, unusedVbo);
      }
      hide TriesDefrag;
      hide Defragged;
      hide SetsFrom;
      hide CorruptFrom;
      hide Total;
      hide TailClean;
      hide OrphanInTheWay;
      hide Available;
      hide AvailableIn;
      hide Blocked;
    }

    /** What a request for slots comes to. */
    ghost predicate Made(d: seq<Dirent>, needed: nat, diskFull: bool, r: Creation)
      reads this, dirents, bitmap
    {
      && Answers(d, needed, diskFull, r) && bitmap.Length == dirents.Length
      && (r.Created? ==>
        && RoomMade(d, dirents[..], r.offset, needed) && r.offset + needed <= unused <= dirents.Length
        && (forall k :: r.offset <= k < r.offset + needed ==> bitmap[k])
        && (SlotsOkBut(r.offset, r.offset + needed) <==> !MeetsOrphan(d, needed)))
      && (!r.Created? ==>
        && (SlotsOk() <==> !MeetsOrphan(d, needed))
        && (dirents[..] == d || (MeetsOrphan(d, needed) && Defragged(d, dirents[..], SetsFrom(d, 0)))))
    }

    lemma {:induction false} AfterClaim(d: seq<Dirent>, d1: seq<Dirent>, b1: seq<bool>, u1: int, offset: nat, needed: nat, unusedVbo: nat, diskFull: bool, r: Creation)
      requires Chosen(d, d1, b1, u1, offset, needed, unusedVbo) && needed > 0 && dirents.Length == bitmap.Length
      requires r == if Refused(d1, offset, needed) then CorruptDirectory else Created(offset)
      requires r.Created? ==> Claimed(d1, b1, offset, needed) && unused == unusedVbo
      requires r.CorruptDirectory? ==> |d1| == |b1| == dirents.Length && forall k :: 0 <= k < dirents.Length ==> SameOrDropped(d1, b1, needed, offset, k)
      requires !Full(d, needed) || (!CannotGrow(d) && !diskFull)
      requires !(TriesDefrag(d, needed) && CorruptFrom(d, 0))
      ensures Made(d, needed, diskFull, r)
    {
      if TriesDefrag(d, needed) {
        if r.Created? {
          DefragResult(d, d1, b1, u1, offset, needed, unusedVbo);
        } else {
          DefragRefused(d, d1, b1, u1, offset, needed, unusedVbo);
        }
      } else {
        PlainResult(d, d1, b1, u1, offset, needed, unusedVbo);
      }
      hide RoomMade;
      hide Full;
      hide CannotGrow;
      hide TriesDefrag;
      hide Claimed;
      hide SameOrDropped;
      hide Refused;
      hide AvailableIn;
      hide Defragged;
      hide SetsFrom;
      hide CorruptFrom;
      hide TailClean;
      hide OrphanInTheWay;
      hide SlotsOk;
      hide SlotsOkBut;
    }

    lemma {:induction false} NotMade(d: seq<Dirent>, needed: nat, diskFull: bool, r: Creation, unusedVbo: nat)
      requires SlotsChosen(d, needed, diskFull, r, unusedVbo) && !r.Created?
      ensures Made(d, needed, diskFull, r)
    {
      assert TriesDefrag(d, needed) ==> CannotGrow(d);
      assert SlotsOk() && bitmap.Length == dirents.Length;
      hide NoGap;
      hide SetsFrom;
      hide CorruptFrom;
      hide TailClean;
      hide SlotsOk;
      hide SlotsOkBut;
      hide Total;
      hide EndOf;
    }

    lemma {:induction false} MayBeClaimed(d: seq<Dirent>, needed: nat, diskFull: bool, r: Creation, unusedVbo: nat)
      requires SlotsChosen(d, needed, diskFull, r, unusedVbo) && r.Created? && bitmap.Length == dirents.Length
      ensures r.offset <= dirents.Length && Chosen(d, dirents[..], bitmap[..], unused, r.offset, needed, unusedVbo)
      ensures (!Full(d, needed) || (!CannotGrow(d) && !diskFull)) && !(TriesDefrag(d, needed) && CorruptFrom(d, 0))
    {
      BeforeClaim(d, needed, r.offset, unusedVbo);
      hide Full;
      hide CannotGrow;
      hide TriesDefrag;
      hide CorruptFrom;
      hide Chosen;
      hide ChosenBy;
      hide SlotsOk;
    }

    /** Finds free slots, and sets them aside. */
    method MakeRoom(needed: nat, diskFull: bool) returns (r: Creation)
      requires SlotsShape() && 0 <= unused && needed > 0 && slotsPerCluster > 0
      modifies this, dirents, bitmap
      ensures (dirents == old(dirents) || fresh(dirents)) && (bitmap == old(bitmap) || fresh(bitmap))
      ensures SlotsShape() && 0 <= unused && (r.Created? ==> r.offset + needed <= dirents.Length)
      ensures old(SlotsOk()) ==> Made(old(dirents[..]), needed, diskFull, r)
    {
      hide SlotsOk;
      hide SlotsChosen;
      hide Made;
      hide Claimed;
      hide Refused;
      hide SameOrDropped;
      ghost var ready, d := SlotsOk(), dirents[..];
      var unusedVbo, hint;
      r, unusedVbo, hint := ChooseSlots(needed, diskFull);
      ghost var d1, b1, u1 := dirents[..], bitmap[..], unused;
      if r.Created? {
        if ready {
          MayBeClaimed(d, needed, diskFull, r, unusedVbo);
        }
        var offset := r.offset;
        var corrupt := Claim(offset, needed, unusedVbo, hint);
        if corrupt {
          r := CorruptDirectory;
        }
        if ready {
          AfterClaim(d, d1, b1, u1, offset, needed, unusedVbo, diskFull, r);
        }
      } else if ready {
        NotMade(d, needed, diskFull, r, unusedVbo);
      }
    }

    /** FatCreateNewDirent: the directory is scanned first, if that has not been done. */
    method CreateNewDirent(needed: nat, diskFull: bool) returns (r: Creation)
      requires SlotsShape() && needed > 0 && slotsPerCluster > 0
      modifies this, dirents, bitmap
      ensures (dirents == old(dirents) || fresh(dirents)) && (bitmap == old(bitmap) || fresh(bitmap))
      ensures SlotsShape() && (r.Created? ==> r.offset + needed <= dirents.Length)
      ensures old(SlotsReady()) ==> Made(old(dirents[..]), needed, diskFull, r)
    {
      hide Made;
      hide InUse;
      if unused == -1 {
        Rescan();
      }
      r := MakeRoom(needed, diskFull);
    }

    /** A directory with entries put into slots that were free. */
    ghost predicate Filled(made: seq<Dirent>, d': seq<Dirent>, offset: nat, entries: seq<Dirent>) {
      offset + |entries| <= |made| && d' == made[..offset] + entries + made[offset + |entries|..]
    }

    /** Room has been made for new entries, and they have been put there. */
    ghost predicate MadeAndFilled(d: seq<Dirent>, d': seq<Dirent>, offset: nat, entries: seq<Dirent>) {
      exists made :: RoomMade(d, made, offset, |entries|) && Filled(made, d', offset, entries)
    }

    /** Without defragmenting, an entry in use survives a create where it is, unless it is the orphaned entry that is dropped. */
    lemma LiveEntrySurvives(d: seq<Dirent>, d': seq<Dirent>, offset: nat, entries: seq<Dirent>, k: nat)
      requires !TriesDefrag(d, |entries|) && MadeAndFilled(d, d', offset, entries) && k < |d| && InUse(d[k])
      ensures k < |d'| && (d'[k] == d[k] || Dropped(d, d', |entries|, offset, k))
    {
      var made :| RoomMade(d, made, offset, |entries|) && Filled(made, d', offset, entries);
      assert k < offset || k >= offset + |entries|;
      assert d'[k] == made[k];
    }

    /** When the directory is defragmented, every set survives a create byte for byte, in its new place. */
    lemma {:induction false} LiveSetSurvives(d: seq<Dirent>, d': seq<Dirent>, offset: nat, entries: seq<Dirent>, i: nat)
      requires TriesDefrag(d, |entries|) && MadeAndFilled(d, d', offset, entries) && i < |SetsFrom(d, 0)|
      ensures var sets := SetsFrom(d, 0);
        && sets[i].start + sets[i].length <= |d| && Length(sets, i) + sets[i].length <= offset <= |d'|
        && d'[Length(sets, i)..Length(sets, i) + sets[i].length] == d[sets[i].start..sets[i].start + sets[i].length]
    {
      hide RoomMade;
      hide Filled;
      hide TriesDefrag;
      hide SetsFrom;
      hide Length;
      var made :| RoomMade(d, made, offset, |entries|) && Filled(made, d', offset, entries);
      LiveSetMoved(d, made, d', offset, entries, i);
    }

    lemma {:induction false} LiveSetMoved(d: seq<Dirent>, made: seq<Dirent>, d': seq<Dirent>, offset: nat, entries: seq<Dirent>, i: nat)
      requires TriesDefrag(d, |entries|) && RoomMade(d, made, offset, |entries|) && Filled(made, d', offset, entries) && i < |SetsFrom(d, 0)|
      ensures var sets := SetsFrom(d, 0);
        && sets[i].start + sets[i].length <= |d| && Length(sets, i) + sets[i].length <= offset <= |d'|
        && d'[Length(sets, i)..Length(sets, i) + sets[i].length] == d[sets[i].start..sets[i].start + sets[i].length]
    {
      hide *;
      DefraggedFirst(d, made, offset, |entries|);
      FilledBefore(made, d', offset, entries);
      TotalIs(d);
      SetInside(SetsFrom(d, 0), |d|, i);
      SetMoved(d, made, SetsFrom(d, 0), i);
      SameSlice(d', made, offset, Length(SetsFrom(d, 0), i), SetsFrom(d, 0)[i].length);
    }

    lemma SetInside(sets: seq<Set>, n: nat, i: nat)
      requires InSequence(sets, 0, n) && i < |sets|
      ensures sets[i].start + sets[i].length <= n
    {
    }

    lemma DefraggedFirst(d: seq<Dirent>, made: seq<Dirent>, offset: nat, needed: nat)
      requires TriesDefrag(d, needed) && RoomMade(d, made, offset, needed)
      ensures Defragged(d, made, SetsFrom(d, 0)) && offset == Total(d)
      ensures InSequence(SetsFrom(d, 0), 0, |d|)
    {
      hide SetsFrom;
      hide Used;
      hide TriesDefrag;
      hide InSequence;
    }

    lemma FilledBefore(made: seq<Dirent>, d': seq<Dirent>, offset: nat, entries: seq<Dirent>)
      requires Filled(made, d', offset, entries)
      ensures offset <= |d'| && offset <= |made| && d'[..offset] == made[..offset]
    {
    }

    lemma SameSlice(u: seq<Dirent>, w: seq<Dirent>, n: nat, at: nat, length: nat)
      requires n <= |u| && n <= |w| && u[..n] == w[..n] && at + length <= n
      ensures u[at..at + length] == w[at..at + length]
    {
      assert u[at..at + length] == u[..n][at..at + length] && w[at..at + length] == w[..n][at..at + length];
    }

    /** What a request to create entries comes to. */
    ghost predicate CreateServed(d: seq<Dirent>, entries: seq<Dirent>, diskFull: bool, r: Creation, d': seq<Dirent>) {
      && Answers(d, |entries|, diskFull, r)
      && (r.Created? ==> MadeAndFilled(d, d', r.offset, entries))
      && (!r.Created? ==> d' == d || (MeetsOrphan(d, |entries|) && Defragged(d, d', SetsFrom(d, 0))))
    }

    /** A range of slots has been set aside for new entries. */
    ghost predicate SetAside(offset: nat, needed: nat)
      reads this, dirents, bitmap
    {
      && bitmap.Length == dirents.Length && offset + needed <= unused <= dirents.Length
      && forall k :: offset <= k < offset + needed ==> bitmap[k] && !InUse(dirents[k])
    }

    lemma MadeSays(d: seq<Dirent>, needed: nat, diskFull: bool, r: Creation)
      requires Made(d, needed, diskFull, r)
      ensures bitmap.Length == dirents.Length && Answers(d, needed, diskFull, r)
      ensures r.Created? ==> RoomMade(d, dirents[..], r.offset, needed) && SetAside(r.offset, needed)
      ensures r.Created? ==> (SlotsOkBut(r.offset, r.offset + needed) <==> !MeetsOrphan(d, needed))
      ensures !r.Created? ==> (SlotsOk() <==> !MeetsOrphan(d, needed))
      ensures !r.Created? ==> dirents[..] == d || (MeetsOrphan(d, needed) && Defragged(d, dirents[..], SetsFrom(d, 0)))
    {
      hide SlotsOk;
      hide SlotsOkBut;
      hide MeetsOrphan;
      hide Answers;
      hide Defragged;
      hide SetsFrom;
    }

    /** Fills slots that have been set aside with entries in use; the slots are in order then, if all others are. */
    method FillSlots(offset: nat, entries: seq<Dirent>)
      requires SlotsShape() && offset + |entries| <= dirents.Length && entries != []
      modifies dirents
      ensures Filled(old(dirents[..]), dirents[..], offset, entries)
      ensures old(SetAside(offset, |entries|)) && (forall i :: 0 <= i < |entries| ==> InUse(entries[i])) ==>
        (SlotsOk() <==> old(SlotsOkBut(offset, offset + |entries|)))
    {
      for i := 0 to |entries|
        invariant forall k :: 0 <= k < dirents.Length ==>
          dirents[k] == if offset <= k < offset + i then entries[k - offset] else old(dirents[k])
      {
        dirents[offset + i] := entries[i];
      }
      if SlotsOk() {
        forall k | 0 <= k < dirents.Length && !(offset <= k < offset + |entries|) ensures old(dirents[k]) == dirents[k] {
        }
      }
    }

    lemma FilledSays(d: seq<Dirent>, made: seq<Dirent>, entries: seq<Dirent>, diskFull: bool, r: Creation, d': seq<Dirent>)
      requires Answers(d, |entries|, diskFull, r)
      requires r.Created? ==> RoomMade(d, made, r.offset, |entries|) && Filled(made, d', r.offset, entries)
      requires !r.Created? ==> d' == d || (MeetsOrphan(d, |entries|) && Defragged(d, d', SetsFrom(d, 0)))
      ensures CreateServed(d, entries, diskFull, r, d')
    {
      hide Answers;
      hide RoomMade;
      hide Filled;
      hide MeetsOrphan;
      hide Defragged;
    }

    /** Creates a file's entries: the slots set aside are filled with entries in use. */
    method CreateAndFill(entries: seq<Dirent>, diskFull: bool) returns (r: Creation)
      requires SlotsShape() && entries != [] && slotsPerCluster > 0 && forall i :: 0 <= i < |entries| ==> InUse(entries[i])
      modifies this, dirents, bitmap
      ensures (dirents == old(dirents) || fresh(dirents)) && (bitmap == old(bitmap) || fresh(bitmap)) && SlotsShape()
      ensures old(SlotsReady()) ==> CreateServed(old(dirents[..]), entries, diskFull, r, dirents[..])
      ensures old(SlotsReady()) ==> (SlotsOk() <==> !MeetsOrphan(old(dirents[..]), |entries|))
    {
      hide *;
      ghost var d, ready := dirents[..], SlotsReady();
      r := CreateNewDirent(|entries|, diskFull);
      if ready {
        MadeSays(d, |entries|, diskFull, r);
      }
      ghost var made := dirents[..];
      if r.Created? {
        FillSlots(r.offset, entries);
      }
      if ready {
        FilledSays(d, made, entries, diskFull, r, dirents[..]);
      }
    }

    /** A request that the driver makes: new entries are in use, and a file's own entries are deleted. */
    predicate Proper(d: seq<Dirent>, request: DirRequest) {
      match request
      case CreateEntries(entries, _) => entries != [] && forall i :: 0 <= i < |entries| ==> InUse(entries[i])
      case DeleteEntries(lfnOffset, direntOffset) => lfnOffset <= direntOffset < |d| && forall k :: lfnOffset <= k <= direntOffset ==> InUse(d[k])
      case RescanNow => true
    }

    /** Any entry in use may be deleted, alone or with entries in front of it, and any entries in use may be created. */
    lemma ProperIs(d: seq<Dirent>, from: nat, at: nat, entries: seq<Dirent>, diskFull: bool)
      ensures Proper(d, DeleteEntries(at, at)) <==> at < |d| && InUse(d[at])
      ensures from < at ==> (Proper(d, DeleteEntries(from, at)) <==> Proper(d, DeleteEntries(from, at - 1)) && Proper(d, DeleteEntries(at, at)))
      ensures Proper(d, CreateEntries(entries, diskFull)) <==> |entries| >= 1 && forall i :: 0 <= i < |entries| ==> InUse(entries[i])
      ensures Proper(d, RescanNow)
    {
      hide InUse;
    }

    /** What a request comes to; one that the driver does not make is passed over. */
    ghost predicate Served(d: seq<Dirent>, request: DirRequest, answer: DirAnswer, d': seq<Dirent>) {
      if !Proper(d, request) then answer.Done? && d' == d
      else match request
        case CreateEntries(entries, diskFull) => answer.Creating? && CreateServed(d, entries, diskFull, answer.creation, d')
        case DeleteEntries(lfnOffset, direntOffset) => answer.Done? && Deleted(d, d', lfnOffset, direntOffset)
        case RescanNow => answer.Done? && d' == d
    }

    /** Whether a request makes the driver lose sight of an entry in use. */
    ghost predicate LosesOrphan(d: seq<Dirent>, request: DirRequest) {
      Proper(d, request) && request.CreateEntries? && MeetsOrphan(d, |request.entries|)
    }

    /** Serves one request. */
    method ServeOne(request: DirRequest) returns (answer: DirAnswer)
      requires SlotsShape() && slotsPerCluster > 0
      modifies this, dirents, bitmap
      ensures (dirents == old(dirents) || fresh(dirents)) && (bitmap == old(bitmap) || fresh(bitmap)) && SlotsShape()
      ensures !request.CreateEntries? || old(SlotsReady()) ==> Served(old(dirents[..]), request, answer, dirents[..])
      ensures old(SlotsReady()) ==> if LosesOrphan(old(dirents[..]), request) then !SlotsOk() else SlotsReady()
      ensures request.RescanNow? ==> (SlotsOk() <==> EndClean(old(dirents[..])))
    {
      hide CreateServed;
      hide MeetsOrphan;
      hide EndClean;
      answer := Done;
      if Proper(dirents[..], request) {
        match request {
          case CreateEntries(entries, diskFull) =>
            var r := CreateAndFill(entries, diskFull);
            answer := Creating(r);
          case DeleteEntries(lfnOffset, direntOffset) => DeleteDirent(lfnOffset, direntOffset);
          case RescanNow =>
            if SlotsOk() {
              SlotsSay(0);
            }
            Rescan();
        }
      }
    }

    /**
      Before request n the driver has every entry in use in sight: no request has made it
      lose sight of one, or it has since scanned the directory when no entry behind its end
      marker had ever been used.
     */
    ghost predicate InSight(requests: seq<DirRequest>, states: seq<seq<Dirent>>, n: nat)
      requires n <= |requests| && n <= |states|
    {
      n == 0 || if requests[n - 1].RescanNow? then EndClean(states[n - 1]) || InSight(requests, states, n - 1)
                else InSight(requests, states, n - 1) && !LosesOrphan(states[n - 1], requests[n - 1])
    }

    lemma {:induction false} InSightBefore(requests: seq<DirRequest>, states: seq<seq<Dirent>>, states': seq<seq<Dirent>>, n: nat)
      requires n <= |requests| && n <= |states| <= |states'| && states == states'[..|states|]
      ensures InSight(requests, states', n) <==> InSight(requests, states, n)
    {
      hide LosesOrphan;
      hide EndClean;
      if n > 0 {
        InSightBefore(requests, states, states', n - 1);
      }
    }

    /** The states and answers of a run, as far as the driver has every entry in use in sight; deleting and scanning never depend on it. */
    ghost predicate Run(requests: seq<DirRequest>, answers: seq<DirAnswer>, states: seq<seq<Dirent>>) {
      && |states| == |answers| + 1 && |answers| <= |requests|
      && forall i {:trigger answers[i]} :: 0 <= i < |answers| && (!requests[i].CreateEntries? || InSight(requests, states, i)) ==>
        Served(states[i], requests[i], answers[i], states[i + 1])
    }

    lemma RunGrows(requests: seq<DirRequest>, answers: seq<DirAnswer>, states: seq<seq<Dirent>>, answer: DirAnswer, d': seq<Dirent>)
      requires Run(requests, answers, states) && |answers| < |requests|
      requires !requests[|answers|].CreateEntries? || InSight(requests, states, |answers|) ==> Served(states[|answers|], requests[|answers|], answer, d')
      ensures Run(requests, answers + [answer], states + [d'])
      ensures InSight(requests, states + [d'], |answers|) <==> InSight(requests, states, |answers|)
    {
      hide Served;
      hide LosesOrphan;
      hide EndClean;
      var as', ss := answers + [answer], states + [d'];
      assert forall i :: 0 <= i <= |answers| ==> ss[i] == states[i];
      InSightBefore(requests, states, ss, |answers|);
      forall i | 0 <= i < |as'| && (!requests[i].CreateEntries? || InSight(requests, ss, i)) ensures Served(ss[i], requests[i], as'[i], ss[i + 1]) {
        InSightBefore(requests, states, ss, i);
        assert i < |answers| ==> as'[i] == answers[i];
      }
    }

    /** In any run, how a create is answered that the driver makes with every entry in use in sight, and with what limits. */
    lemma RefusedInRun(requests: seq<DirRequest>, answers: seq<DirAnswer>, states: seq<seq<Dirent>>, i: nat)
      requires Run(requests, answers, states) && i < |answers| && InSight(requests, states, i)
      requires requests[i].CreateEntries? && Proper(states[i], requests[i])
      ensures var d, needed := states[i], |requests[i].entries|;
        && answers[i].Creating?
        && (!isRoot || fat32 ==> (answers[i].creation == CannotMake <==> NoGap(d, needed) && |d| >= 65536))
        && (isRoot && !fat32 && |d| <= 8192 && !CorruptFrom(d, 0) && Total(d) + needed <= |d| ==> answers[i].creation !in {CannotMake, DiskFull})
    {
      assert Served(states[i], requests[i], answers[i], states[i + 1]);
      RefusedWhen(states[i], |requests[i].entries|, requests[i].diskFull, answers[i].creation);
      hide NoGap;
      hide InSight;
      hide SetsFrom;
      hide CorruptFrom;
      hide Total;
    }

    /** In a directory that can grow, nothing is lost, and none is found corrupt. */
    lemma {:induction false} GrowingIsClean(requests: seq<DirRequest>, answers: seq<DirAnswer>, states: seq<seq<Dirent>>)
      requires Run(requests, answers, states) && (!isRoot || fat32)
      ensures InSight(requests, states, |answers|) && forall i :: 0 <= i < |answers| ==> answers[i] != Creating(CorruptDirectory)
    {
      forall d, request ensures !LosesOrphan(d, request) {
      }
      hide LosesOrphan;
      hide EndClean;
      for n := 0 to |answers|
        invariant InSight(requests, states, n) && forall i :: 0 <= i < n ==> answers[i] != Creating(CorruptDirectory)
      {
        assert Served(states[n], requests[n], answers[n], states[n + 1]);
      }
    }

    /**
      Serves requests in any directory.  As long as the driver has every entry in use in
      sight, every answer and every state is exact, and so are the bitmap and the end
      marker; once it has lost one, a scan makes them exact again exactly when no entry
      behind the end marker was ever used.  In a directory that can grow none is
      ever lost, and no request finds such a directory corrupt.
     */
    method Serve(requests: seq<DirRequest>) returns (answers: seq<DirAnswer>, ghost states: seq<seq<Dirent>>)
      requires SlotsReady() && slotsPerCluster > 0
      modifies this, dirents, bitmap
      ensures |answers| == |requests| && Run(requests, answers, states) && states[0] == old(dirents[..]) && states[|answers|] == dirents[..]
      ensures InSight(requests, states, |requests|) ==> SlotsReady()
      ensures !isRoot || fat32 ==> SlotsReady() && forall i :: 0 <= i < |answers| ==> answers[i] != Creating(CorruptDirectory)
    {
      answers, states := [], [dirents[..]];
      hide Served;
      hide LosesOrphan;
      hide SlotsOk;
      hide EndClean;
      for k := 0 to |requests|
        invariant (dirents == old(dirents) || fresh(dirents)) && (bitmap == old(bitmap) || fresh(bitmap)) && SlotsShape()
        invariant |answers| == k && Run(requests, answers, states) && states[0] == old(dirents[..]) && states[k] == dirents[..]
        invariant InSight(requests, states, k) ==> SlotsReady()
      {
        var answer := ServeOne(requests[k]);
        RunGrows(requests, answers, states, answer, dirents[..]);
        answers, states := answers + [answer], states + [dirents[..]];
      }
      if !isRoot || fat32 {
        GrowingIsClean(requests, answers, states);
      }
    }
  }
}
