/**
  Long file names: the part of FatConstructDirent that writes the entries of a long
  name, and FatLocateDirent, which puts the name together again while it scans.  See
  sections "FAT Directory Structure" and "FAT Long Directory Entries" of the Microsoft
  FAT32 File System Specification.  Characters are 16-bit values.
 */
module Lfn {
  const MAX_LFN_DIRENTS: nat := 20
  const FAT_LAST_LONG_ENTRY: nat := 0x40
  const FAT_DIRENT_NEVER_USED: nat := 0x00
  const FAT_DIRENT_DELETED: nat := 0xe5
  const FAT_DIRENT_ATTR_VOLUME_ID: nat := 0x08
  const FAT_DIRENT_ATTR_LFN: nat := 0x0f

  /** The 32 bytes of a directory entry. */
  type Dirent = d: seq<nat> | |d| == 32 witness seq(32, _ => 0)

  /** Characters as they are stored, low byte first. */
  function Bytes(chars: seq<nat>): (b: seq<nat>)
    ensures |b| == 2 * |chars|
  {
    if chars == [] then [] else [chars[0] % 0x100, chars[0] / 0x100 % 0x100] + Bytes(chars[1..])
  }

  function Words(b: seq<nat>): (chars: seq<nat>)
    requires |b| % 2 == 0
    ensures |chars| == |b| / 2
  {
    if b == [] then [] else [b[0] + 0x100 * b[1]] + Words(b[2..])
  }

  ghost predicate AreChars(chars: seq<nat>) {
    forall i :: 0 <= i < |chars| ==> chars[i] < 0x1_0000
  }

  lemma {:induction false} WordsOfBytes(chars: seq<nat>)
    requires AreChars(chars)
    ensures Words(Bytes(chars)) == chars
  {
    if chars != [] {
      var b := Bytes(chars);
      assert b[2..] == Bytes(chars[1..]);
      WordsOfBytes(chars[1..]);
      assert chars[0] == b[0] + 0x100 * b[1];
    }
  }

  /** The thirteen characters that an entry of a long name holds, in three pieces. */
  function Chars(d: Dirent): (chars: seq<nat>)
    ensures |chars| == 13
  {
    Words(d[1..11]) + Words(d[14..26]) + Words(d[28..32])
  }

  function Attributes(d: Dirent): nat {
    d[11]
  }

  function LfnChecksum(d: Dirent): nat {
    d[13]
  }

  function MustBeZero(d: Dirent): nat {
    d[26] + 0x100 * d[27]
  }

  /** An entry of a long name. */
  function LfnDirent(ordinal: nat, checksum: nat, chars: seq<nat>): Dirent
    requires |chars| == 13
  {
    [ordinal] + Bytes(chars[..5]) + [FAT_DIRENT_ATTR_LFN, 0, checksum] + Bytes(chars[5..11]) + [0, 0] + Bytes(chars[11..])
  }

  lemma LfnDirentReads(ordinal: nat, checksum: nat, chars: seq<nat>)
    requires |chars| == 13 && AreChars(chars)
    ensures var d := LfnDirent(ordinal, checksum, chars);
      d[0] == ordinal && Attributes(d) == FAT_DIRENT_ATTR_LFN && LfnChecksum(d) == checksum && MustBeZero(d) == 0 && Chars(d) == chars
  {
    var d := LfnDirent(ordinal, checksum, chars);
    assert d[1..11] == Bytes(chars[..5]);
    assert d[14..26] == Bytes(chars[5..11]);
    assert d[28..32] == Bytes(chars[11..]);
    WordsOfBytes(chars[..5]);
    WordsOfBytes(chars[5..11]);
    WordsOfBytes(chars[11..]);
    assert chars == chars[..5] + chars[5..11] + chars[11..];
  }

  /** The checksum of the first n bytes of a short name: rotate right, and add. */
  function Checksum(name: seq<nat>, n: nat): nat
    requires 0 < n <= |name|
  {
    if n == 1 then name[0]
    else
      var sum := Checksum(name, n - 1);
      ((if sum % 2 == 1 then 0x80 else 0) + sum / 2 + name[n - 1]) % 0x100
  }

  /** FatComputeLfnChecksum. */
  method ComputeLfnChecksum(d: Dirent) returns (checksum: nat)
    ensures checksum == Checksum(d, 11)
  {
    checksum := d[0];
    for i := 1 to 11
      invariant checksum == Checksum(d, i)
    {
      checksum := ((if checksum % 2 == 1 then 0x80 else 0) + checksum / 2 + d[i]) % 0x100;
    }
  }

  /** FAT_LFN_DIRENTS_NEEDED. */
  function DirentsNeeded(name: seq<nat>): nat {
    (|name| + 12) / 13
  }

  /** The characters that entry j of a name holds, counted from one; the last entry is closed with a zero and filled up. */
  function Piece(name: seq<nat>, j: nat): (piece: seq<nat>)
    requires 0 < j <= DirentsNeeded(name)
    ensures |piece| == 13
  {
    seq(13, i requires 0 <= i < 13 =>
      var k := 13 * (j - 1) + i;
      if k < |name| then name[k] else if k == |name| then 0 else 0xffff)
  }

  /** Entry j of a long name. */
  function EntryFor(name: seq<nat>, checksum: nat, j: nat): Dirent
    requires 0 < j <= DirentsNeeded(name)
  {
    LfnDirent(if j == DirentsNeeded(name) then j + FAT_LAST_LONG_ENTRY else j, checksum, Piece(name, j))
  }

  /** The entries before position at hold a long name for the short entry there, in descending order. */
  ghost predicate HoldsName(dirents: seq<Dirent>, at: nat, name: seq<nat>) {
    var m := DirentsNeeded(name);
    m <= at < |dirents| && forall p :: at - m <= p < at ==> dirents[p] == EntryFor(name, Checksum(dirents[at], 11), at - p)
  }

  /** The characters of the last entry: what remains of the name, and if that is not a whole piece, a zero and fillers. */
  method FinalBuffer(lfn: seq<nat>, lfnBuffer: nat) returns (buffer: seq<nat>)
    requires 0 < |lfn| && lfnBuffer == 13 * (DirentsNeeded(lfn) - 1)
    ensures buffer == Piece(lfn, DirentsNeeded(lfn))
  {
    var remainderChars := |lfn| % 13;
    ghost var piece := Piece(lfn, DirentsNeeded(lfn));
    if remainderChars != 0 {
      buffer := lfn[lfnBuffer..lfnBuffer + remainderChars];
      for i := remainderChars to 13
        invariant |buffer| == i && forall k :: 0 <= k < i ==> buffer[k] == piece[k]
      {
        buffer := buffer + [if i == remainderChars then 0x0000 else 0xffff];
      }
    } else {
      buffer := lfn[lfnBuffer..lfnBuffer + 13];
    }
  }

  /** FatConstructDirent, writing the entries of a long name in front of the short entry. */
  method ConstructLfn(dirents: array<Dirent>, at: nat, lfn: seq<nat>)
    requires 0 < |lfn| && DirentsNeeded(lfn) <= at < dirents.Length
    modifies dirents
    ensures HoldsName(dirents[..], at, lfn)
    ensures forall k :: 0 <= k < dirents.Length && !(at - DirentsNeeded(lfn) <= k < at) ==> dirents[k] == old(dirents[k])
  {
    var checksum := ComputeLfnChecksum(dirents[at]);
    var direntsInLfn := DirentsNeeded(lfn);
    var ordinal, lfnBuffer := direntsInLfn, (direntsInLfn - 1) * 13;
    var k: nat := at - direntsInLfn;
    while k < at
      invariant k + ordinal == at && 0 <= ordinal <= direntsInLfn && lfnBuffer == 13 * (ordinal - 1)
      invariant forall p :: at - direntsInLfn <= p < k ==> dirents[p] == EntryFor(lfn, checksum, at - p)
      invariant forall i :: 0 <= i < dirents.Length && !(at - direntsInLfn <= i < at) ==> dirents[i] == old(dirents[i])
    {
      var stored, buffer;
      if ordinal == direntsInLfn {
        stored := ordinal + FAT_LAST_LONG_ENTRY;
        buffer := FinalBuffer(lfn, lfnBuffer);
      } else {
        stored, buffer := ordinal, lfn[lfnBuffer..lfnBuffer + 13];
      }
      assert buffer == Piece(lfn, ordinal);
      dirents[k] := LfnDirent(stored, checksum, buffer);
      k, ordinal, lfnBuffer := k + 1, ordinal - 1, lfnBuffer - 13;
    }
  }

  /** What FatLocateDirent keeps of a long name in progress; lastEntry is the position of the last entry that was used. */
  datatype Reader = Reader(inProgress: bool, checksum: nat, size: nat, index: nat, ordinal: nat, lastEntry: nat, buffer: seq<nat>)

  /** While a name is in progress, the index is thirteen times one less than the ordinal. */
  ghost predicate ReaderOk(r: Reader) {
    && |r.buffer| == 13 * MAX_LFN_DIRENTS
    && (r.inProgress ==> 1 <= r.ordinal <= MAX_LFN_DIRENTS && r.index == 13 * (r.ordinal - 1) && r.size <= |r.buffer|)
  }

  predicate IsLastEntry(d: Dirent) {
    d[0] / FAT_LAST_LONG_ENTRY % 2 == 1
  }

  function OrdinalOf(d: Dirent): nat {
    if IsLastEntry(d) then d[0] - FAT_LAST_LONG_ENTRY else d[0]
  }

  /** A proper continuation of the name in progress. */
  predicate Continues(r: Reader, d: Dirent) {
    r.inProgress && !IsLastEntry(d) && d[0] != 0 && d[0] + 1 == r.ordinal && LfnChecksum(d) == r.checksum && MustBeZero(d) == 0
  }

  /** An entry that may be the last one of a name, and so comes first. */
  predicate MayStart(d: Dirent) {
    IsLastEntry(d) && OrdinalOf(d) <= MAX_LFN_DIRENTS && MustBeZero(d) == 0
  }

  function Put(buffer: seq<nat>, index: nat, chars: seq<nat>): (r: seq<nat>)
    requires index + |chars| <= |buffer|
    ensures |r| == |buffer|
  {
    buffer[..index] + chars + buffer[index + |chars|..]
  }

  /** How many of the characters from i on belong to a name: those before the first zero, behind which there may only be fillers. */
  function TailSize(chars: seq<nat>, i: nat, closed: int): (size: int)
    requires i <= |chars| && -1 <= closed < i
    ensures -1 <= size <= |chars|
    decreases |chars| - i
  {
    if i == |chars| then (if closed == -1 then i else closed)
    else if closed == -1 then TailSize(chars, i + 1, if chars[i] == 0 then i else -1)
    else if chars[i] != 0xffff then -1
    else TailSize(chars, i + 1, closed)
  }

  /** What an entry of a long name makes of a reader; an entry that starts a name must not be numbered zero. */
  function Fed(r: Reader, d: Dirent, position: nat): (r': Reader)
    requires |r.buffer| == 13 * MAX_LFN_DIRENTS && (r.inProgress ==> r.ordinal <= MAX_LFN_DIRENTS && r.index == 13 * (r.ordinal - 1))
    requires MayStart(d) && !Continues(r, d) ==> OrdinalOf(d) > 0
  {
    if Continues(r, d) then
      r.(buffer := Put(r.buffer, r.index - 13, Chars(d)), index := r.index - 13, ordinal := d[0], lastEntry := position)
    else if MayStart(d) then
      var index := 13 * (OrdinalOf(d) - 1);
      var size := TailSize(Chars(d), 0, -1);
      var buffer := Put(r.buffer, index, Chars(d));
      if size == -1 then r.(inProgress := false, ordinal := OrdinalOf(d), buffer := buffer)
      else Reader(true, LfnChecksum(d), index + size, index, OrdinalOf(d), position, buffer)
    else
      r.(inProgress := false)
  }

  /** Reading an entry keeps the index in step with the ordinal. */
  lemma FedOk(r: Reader, d: Dirent, position: nat)
    requires ReaderOk(r) && (MayStart(d) && !Continues(r, d) ==> OrdinalOf(d) > 0)
    ensures ReaderOk(Fed(r, d, position))
  {
  }

  /** Names of one to 255 characters, none of them zero. */
  ghost predicate GoodName(name: seq<nat>) {
    0 < |name| <= 255 && forall k :: 0 <= k < |name| ==> 0 < name[k] < 0x1_0000
  }

  /** A full piece, and the last piece of a name without zeros, have the size of what they hold. */
  lemma LastOrdinal(d: Dirent, m: nat)
    requires d[0] == m + FAT_LAST_LONG_ENTRY && m <= MAX_LFN_DIRENTS
    ensures IsLastEntry(d) && OrdinalOf(d) == m
  {
    assert (m + 64) / 64 == 1;
  }

  lemma {:induction false} TailOfPiece(name: seq<nat>, j: nat, i: nat)
    requires 0 < j == DirentsNeeded(name) && (forall k :: 0 <= k < |name| ==> 0 < name[k] < 0x1_0000)
    requires i <= 13 && (i <= |name| - 13 * (j - 1) || |name| - 13 * (j - 1) < 13)
    ensures var n := |name| - 13 * (j - 1);
      TailSize(Piece(name, j), i, if i <= n then -1 else n) == n
    decreases 13 - i
  {
    if i < 13 {
      TailOfPiece(name, j, i + 1);
    }
  }

  /** A reader that has read the entries of a name down to entry j. */
  ghost predicate HasRead(r: Reader, name: seq<nat>, checksum: nat, j: nat, position: nat) {
    && ReaderOk(r) && r.inProgress && r.ordinal == j && r.checksum == checksum && r.size == |name| && r.lastEntry == position
    && r.index <= |name| && forall k {:trigger r.buffer[k]} :: r.index <= k < |name| ==> r.buffer[k] == name[k]
  }

  /** Whatever a reader has in progress, the last entry of a name starts that name. */
  lemma StartsName(r: Reader, name: seq<nat>, checksum: nat, position: nat)
    requires ReaderOk(r) && GoodName(name)
    ensures var m := DirentsNeeded(name); var d := EntryFor(name, checksum, m);
      !Continues(r, d) && MayStart(d) && OrdinalOf(d) == m && HasRead(Fed(r, d, position), name, checksum, m, position)
  {
    var m := DirentsNeeded(name);
    var d := EntryFor(name, checksum, m);
    var piece := Piece(name, m);
    LfnDirentReads(m + FAT_LAST_LONG_ENTRY, checksum, piece);
    LastOrdinal(d, m);
    TailOfPiece(name, m, 0);
    var index := 13 * (m - 1);
    forall k | index <= k < |name| ensures piece[k - index] == name[k] {
    }
    hide LfnDirent;
    hide Chars;
    hide TailSize;
    hide EntryFor;
    hide Piece;
    hide IsLastEntry;
    hide OrdinalOf;
    StartsFrom(r, d, position, index, piece, name);
  }

  lemma StartsFrom(r: Reader, d: Dirent, position: nat, index: nat, piece: seq<nat>, name: seq<nat>)
    requires ReaderOk(r) && MayStart(d) && OrdinalOf(d) > 0 && index == 13 * (OrdinalOf(d) - 1) && IsLastEntry(d)
    requires Chars(d) == piece && index < |name| <= index + 13 && TailSize(piece, 0, -1) == |name| - index
    requires forall k :: index <= k < |name| ==> piece[k - index] == name[k]
    ensures !Continues(r, d) && HasRead(Fed(r, d, position), name, LfnChecksum(d), OrdinalOf(d), position)
  {
    hide Chars;
    hide TailSize;
    hide OrdinalOf;
    var r' := Fed(r, d, position);
    forall k | index <= k < |name| ensures r'.buffer[k] == name[k] {
      assert r'.buffer[k] == piece[k - index];
    }
  }

  /** Entry j continues a name that has been read down to entry j + 1. */
  lemma ContinuesName(r: Reader, name: seq<nat>, checksum: nat, j: nat, position: nat, before: nat)
    requires GoodName(name) && 0 < j < DirentsNeeded(name) && HasRead(r, name, checksum, j + 1, before)
    ensures var d := EntryFor(name, checksum, j);
      Continues(r, d) && HasRead(Fed(r, d, position), name, checksum, j, position)
  {
    var d := EntryFor(name, checksum, j);
    LfnDirentReads(j, checksum, Piece(name, j));
    var index := 13 * (j - 1);
    var r' := Fed(r, d, position);
    forall k | index <= k < |name| ensures r'.buffer[k] == name[k] {
      if k < index + 13 {
        assert r'.buffer[k] == Piece(name, j)[k - index];
      } else {
        assert r'.buffer[k] == r.buffer[k];
      }
    }
  }

  /** What is looked for: every entry, or one whose short name or long name matches; volume labels only on request. */
  datatype Query = Query(labels: bool, all: bool, shortMatches: Dirent -> bool, longMatches: seq<nat> -> bool)

  datatype Located = NotFound | Corrupt | Found(position: nat, longName: seq<nat>, byShortName: bool)

  /** An entry that belongs to a file: in use, and neither part of a long name nor a volume label. */
  predicate IsShort(d: Dirent) {
    d[0] != FAT_DIRENT_NEVER_USED && d[0] != FAT_DIRENT_DELETED && Attributes(d) / FAT_DIRENT_ATTR_VOLUME_ID % 2 == 0
  }

  /** Whether the long name that has been read belongs to the entry at a position. */
  predicate Belongs(r: Reader, d: Dirent, position: nat) {
    r.inProgress && position == r.lastEntry + 1 && r.index == 0 && Checksum(d, 11) == r.checksum
  }

  predicate Wanted(q: Query, d: Dirent, belongs: bool, longName: seq<nat>) {
    q.all || q.shortMatches(d) || (belongs && q.longMatches(longName))
  }

  /** The scan of a directory from a position on. */
  function ScanFrom(dirents: seq<Dirent>, k: nat, r: Reader, q: Query): Located
    requires k <= |dirents| && |r.buffer| == 13 * MAX_LFN_DIRENTS
    requires r.inProgress ==> r.ordinal <= MAX_LFN_DIRENTS && r.index == 13 * (r.ordinal - 1) && r.size <= |r.buffer|
    decreases |dirents| - k
  {
    if k == |dirents| || dirents[k][0] == FAT_DIRENT_NEVER_USED then NotFound
    else
      var d := dirents[k];
      if d[0] == FAT_DIRENT_DELETED then ScanFrom(dirents, k + 1, r.(inProgress := false), q)
      else if Attributes(d) == FAT_DIRENT_ATTR_LFN then
        if MayStart(d) && !Continues(r, d) && OrdinalOf(d) == 0 then Corrupt
        else ScanFrom(dirents, k + 1, Fed(r, d, k), q)
      else if Attributes(d) / FAT_DIRENT_ATTR_VOLUME_ID % 2 == 1 then
        if q.labels then Found(k, [], false) else ScanFrom(dirents, k + 1, r, q)
      else
        var longName := if Belongs(r, d, k) then r.buffer[..r.size] else [];
        if Wanted(q, d, Belongs(r, d, k), longName) then Found(k, longName, !q.all && q.shortMatches(d))
        else ScanFrom(dirents, k + 1, r, q)
  }

  /** Takes an entry of a long name: as a continuation, or else, if it can be, as the start of another name. */
  method TakeLfnEntry(r0: Reader, d: Dirent, position: nat) returns (corrupt: bool, r: Reader)
    requires ReaderOk(r0)
    ensures corrupt <==> MayStart(d) && !Continues(r0, d) && OrdinalOf(d) == 0
    ensures !corrupt ==> r == Fed(r0, d, position) && ReaderOk(r)
  {
    corrupt, r := false, r0;
    if r.inProgress {
      if IsLastEntry(d) || d[0] == 0 || d[0] != r.ordinal - 1 || LfnChecksum(d) != r.checksum || MustBeZero(d) != 0 {
        r := r.(inProgress := false);
      } else {
        var index := r.index - 13;
        r := r.(index := index, buffer := Put(r.buffer, index, Chars(d)), ordinal := d[0], lastEntry := position);
      }
    }
    if !r.inProgress && MayStart(d) {
      var ordinal := OrdinalOf(d);
      if ordinal == 0 {
        return true, r;
      }
      var base := (ordinal - 1) * 13;
      var buffer := Put(r.buffer, base, Chars(d));
      var valid, size := CheckTail(buffer, base, ordinal * 13, Chars(d));
      if valid {
        r := Reader(true, LfnChecksum(d), size, base, ordinal, position, buffer);
      } else {
        r := r.(ordinal := ordinal, buffer := buffer);
      }
    }
  }

  /** The size of a name whose last piece has been put in place, if the tail behind a zero is all fillers. */
  method CheckTail(buffer: seq<nat>, base: nat, end: nat, ghost chars: seq<nat>) returns (valid: bool, size: nat)
    requires end == base + 13 <= |buffer| && buffer[base..end] == chars
    ensures valid <==> TailSize(chars, 0, -1) != -1
    ensures valid ==> size == base + TailSize(chars, 0, -1)
  {
    var index, checkTail := base, false;
    size := 0;
    while index != end
      invariant base <= index <= end && (checkTail ==> base <= size < index)
      invariant TailSize(chars, 0, -1) == TailSize(chars, index - base, if checkTail then size - base else -1)
    {
      assert buffer[index] == chars[index - base];
      if !checkTail {
        if buffer[index] == 0x0000 {
          size, checkTail := index, true;
        }
      } else if buffer[index] != 0xffff {
        return false, size;
      }
      index := index + 1;
    }
    valid := true;
    if !checkTail {
      size := index;
    }
  }

  /** FatLocateDirent. */
  method LocateDirent(dirents: array<Dirent>, start: nat, q: Query) returns (found: Located)
    requires start <= dirents.Length
    ensures found == ScanFrom(dirents[..], start, NoName(), q)
  {
    var r, k := NoName(), start;
    while k < dirents.Length && dirents[k][0] != FAT_DIRENT_NEVER_USED
      invariant start <= k <= dirents.Length && ReaderOk(r)
      invariant ScanFrom(dirents[..], start, NoName(), q) == ScanFrom(dirents[..], k, r, q)
    {
      var d := dirents[k];
      if d[0] == FAT_DIRENT_DELETED {
        r := r.(inProgress := false);
      } else if Attributes(d) == FAT_DIRENT_ATTR_LFN {
        var corrupt;
        corrupt, r := TakeLfnEntry(r, d, k);
        if corrupt {
          return Corrupt;
        }
      } else if Attributes(d) / FAT_DIRENT_ATTR_VOLUME_ID % 2 == 1 {
        if q.labels {
          return Found(k, [], false);
        }
      } else {
        var checksum := ComputeLfnChecksum(d);
        var valid := r.inProgress && k == r.lastEntry + 1 && r.index == 0 && checksum == r.checksum;
        var longName := if valid then r.buffer[..r.size] else [];
        if q.all {
          return Found(k, longName, false);
        }
        if q.shortMatches(d) {
          return Found(k, longName, true);
        }
        if valid && q.longMatches(longName) {
          return Found(k, longName, false);
        }
      }
      k := k + 1;
    }
    return NotFound;
  }

  /** A reader that has read nothing yet. */
  function NoName(): (r: Reader)
    ensures ReaderOk(r)
  {
    Reader(false, 0, 0, 0, 0, 0, seq(13 * MAX_LFN_DIRENTS, _ => 0))
  }

  /** The entry of a name at its place is met as part of a long name. */
  lemma EntryMet(dirents: seq<Dirent>, at: nat, name: seq<nat>, p: nat)
    requires HoldsName(dirents, at, name) && GoodName(name) && at - DirentsNeeded(name) <= p < at
    ensures var d := dirents[p];
      && d == EntryFor(name, Checksum(dirents[at], 11), at - p)
      && d[0] != FAT_DIRENT_NEVER_USED && d[0] != FAT_DIRENT_DELETED && Attributes(d) == FAT_DIRENT_ATTR_LFN
  {
    var j := at - p;
    LfnDirentReads(if j == DirentsNeeded(name) then j + FAT_LAST_LONG_ENTRY else j, Checksum(dirents[at], 11), Piece(name, j));
  }

  /** A scan goes on behind an entry of a long name. */
  lemma ScanTakes(dirents: seq<Dirent>, k: nat, r: Reader, q: Query)
    requires k < |dirents| && ReaderOk(r) && (Continues(r, dirents[k]) || (MayStart(dirents[k]) && OrdinalOf(dirents[k]) > 0))
    requires dirents[k][0] != FAT_DIRENT_NEVER_USED && dirents[k][0] != FAT_DIRENT_DELETED && Attributes(dirents[k]) == FAT_DIRENT_ATTR_LFN
    ensures ReaderOk(Fed(r, dirents[k], k)) && ScanFrom(dirents, k, r, q) == ScanFrom(dirents, k + 1, Fed(r, dirents[k], k), q)
  {
    FedOk(r, dirents[k], k);
    hide Fed;
  }

  lemma NameInFront(dirents: seq<Dirent>, at: nat, name: seq<nat>)
    requires HoldsName(dirents, at, name)
    ensures DirentsNeeded(name) <= at < |dirents|
  {
  }

  lemma HasReadOk(r: Reader, name: seq<nat>, checksum: nat, j: nat, position: nat)
    requires HasRead(r, name, checksum, j, position)
    ensures ReaderOk(r) && |r.buffer| == 13 * MAX_LFN_DIRENTS && Behind(r, position + 2)
    ensures r.ordinal <= MAX_LFN_DIRENTS && r.index == 13 * (r.ordinal - 1) && r.size <= |r.buffer|
  {
  }

  /** Scanning the entries of a name from entry j down leads to the short entry with the whole name read. */
  lemma {:induction false} ReadsOn(dirents: seq<Dirent>, at: nat, name: seq<nat>, j: nat, r: Reader, q: Query) returns (r': Reader)
    requires HoldsName(dirents, at, name) && GoodName(name) && 0 < j <= DirentsNeeded(name)
    requires HasRead(r, name, Checksum(dirents[at], 11), j, at - j)
    ensures HasRead(r', name, Checksum(dirents[at], 11), 1, at - 1)
    ensures ScanFrom(dirents, at - j + 1, r, q) == ScanFrom(dirents, at, r', q)
    decreases j
  {
    NameInFront(dirents, at, name);
    hide *;
    if j == 1 {
      r' := r;
    } else {
      var p: nat := at - j + 1;
      EntryMet(dirents, at, name, p);
      ContinuesName(r, name, Checksum(dirents[at], 11), j - 1, p, at - j);
      HasReadOk(Fed(r, dirents[p], p), name, Checksum(dirents[at], 11), j - 1, p);
      HasReadOk(r, name, Checksum(dirents[at], 11), j, at - j);
      ScanTakes(dirents, p, r, q);
      r' := ReadsOn(dirents, at, name, j - 1, Fed(r, dirents[p], p), q);
    }
  }

  /** The scan at a short entry behind which a name has been read. */
  lemma ScanAtShort(dirents: seq<Dirent>, at: nat, name: seq<nat>, r: Reader, q: Query)
    requires 0 < at < |dirents| && IsShort(dirents[at]) && HasRead(r, name, Checksum(dirents[at], 11), 1, at - 1)
    ensures ScanFrom(dirents, at, r, q) ==
      if Wanted(q, dirents[at], true, name) then Found(at, name, !q.all && q.shortMatches(dirents[at])) else ScanFrom(dirents, at + 1, r, q)
  {
    assert r.buffer[..r.size] == name;
    assert Belongs(r, dirents[at], at);
    hide Checksum;
  }

  /** What a reader has in progress does not belong to the entry at position k. */
  predicate Behind(r: Reader, k: nat) {
    r.inProgress ==> r.lastEntry + 1 < k
  }

  /** At its short entry, a name that has been written is found as it was written, whatever was in progress before. */
  lemma {:induction false} NameFoundAt(dirents: seq<Dirent>, at: nat, name: seq<nat>, r: Reader, q: Query)
    requires HoldsName(dirents, at, name) && GoodName(name) && IsShort(dirents[at]) && ReaderOk(r)
    ensures Wanted(q, dirents[at], true, name) ==>
      ScanFrom(dirents, at - DirentsNeeded(name), r, q) == Found(at, name, !q.all && q.shortMatches(dirents[at]))
    ensures !Wanted(q, dirents[at], true, name) ==>
      exists r' :: ReaderOk(r') && Behind(r', at + 1) && ScanFrom(dirents, at - DirentsNeeded(name), r, q) == ScanFrom(dirents, at + 1, r', q)
  {
    NameInFront(dirents, at, name);
    NameNotEmpty(name);
    hide *;
    var m := DirentsNeeded(name);
    var p: nat := at - m;
    EntryMet(dirents, at, name, p);
    StartsName(r, name, Checksum(dirents[at], 11), p);
    ScanTakes(dirents, p, r, q);
    var r1 := ReadsOn(dirents, at, name, m, Fed(r, dirents[p], p), q);
    HasReadOk(r1, name, Checksum(dirents[at], 11), 1, at - 1);
    ScanAtShort(dirents, at, name, r1, q);
  }

  lemma NameNotEmpty(name: seq<nat>)
    requires GoodName(name)
    ensures 0 < DirentsNeeded(name) <= MAX_LFN_DIRENTS
  {
  }

  /** Wherever before its entries a scan starts, a name that has been written is what its short entry is found with. */
  lemma {:induction false} FoundWithName(dirents: seq<Dirent>, at: nat, name: seq<nat>, k: nat, r: Reader, q: Query)
    requires HoldsName(dirents, at, name) && GoodName(name) && IsShort(dirents[at]) && ReaderOk(r)
    requires k + DirentsNeeded(name) <= at
    ensures var found := ScanFrom(dirents, k, r, q); found.Found? && found.position == at ==> found.longName == name
    decreases at - k
  {
    assert at < |dirents|;
    hide HoldsName;
    hide GoodName;
    hide Fed;
    hide Belongs;
    hide MayStart;
    hide Continues;
    hide Wanted;
    hide DirentsNeeded;
    if k + DirentsNeeded(name) == at {
      FromItsFirstEntry(dirents, at, name, k, r, q);
    } else if dirents[k][0] == FAT_DIRENT_NEVER_USED {
    } else {
      var d := dirents[k];
      if d[0] == FAT_DIRENT_DELETED {
        FoundWithName(dirents, at, name, k + 1, r.(inProgress := false), q);
      } else if Attributes(d) == FAT_DIRENT_ATTR_LFN {
        if !(MayStart(d) && !Continues(r, d) && OrdinalOf(d) == 0) {
          FedOk(r, d, k);
          FoundWithName(dirents, at, name, k + 1, Fed(r, d, k), q);
        }
      } else {
        FoundWithName(dirents, at, name, k + 1, r, q);
      }
    }
  }

  lemma {:induction false} FromItsFirstEntry(dirents: seq<Dirent>, at: nat, name: seq<nat>, k: nat, r: Reader, q: Query)
    requires HoldsName(dirents, at, name) && GoodName(name) && IsShort(dirents[at]) && ReaderOk(r) && k + DirentsNeeded(name) == at
    ensures var found := ScanFrom(dirents, k, r, q); found.Found? && found.position == at ==> found.longName == name
  {
    NameFoundAt(dirents, at, name, r, q);
    assert at < |dirents|;
    hide ScanFrom;
    hide HoldsName;
    hide GoodName;
    hide Wanted;
    hide DirentsNeeded;
    if !Wanted(q, dirents[at], true, name) {
      var r' :| ReaderOk(r') && Behind(r', at + 1) && ScanFrom(dirents, k, r, q) == ScanFrom(dirents, at + 1, r', q);
      FoundFurther(dirents, at + 1, r', q);
    }
  }

  /** A scan finds nothing before the position it starts from, and no longer name than the entries of one can hold. */
  lemma {:induction false} FoundFurther(dirents: seq<Dirent>, k: nat, r: Reader, q: Query)
    requires k <= |dirents| && ReaderOk(r)
    ensures var found := ScanFrom(dirents, k, r, q);
      found.Found? ==> k <= found.position < |dirents| && |found.longName| <= 13 * MAX_LFN_DIRENTS
    decreases |dirents| - k
  {
    if k < |dirents| && dirents[k][0] != FAT_DIRENT_NEVER_USED {
      var d := dirents[k];
      if d[0] == FAT_DIRENT_DELETED {
        FoundFurther(dirents, k + 1, r.(inProgress := false), q);
      } else if Attributes(d) == FAT_DIRENT_ATTR_LFN {
        if !(MayStart(d) && !Continues(r, d) && OrdinalOf(d) == 0) {
          FedOk(r, d, k);
          FoundFurther(dirents, k + 1, Fed(r, d, k), q);
        }
      } else {
        FoundFurther(dirents, k + 1, r, q);
      }
    }
  }

  /** Writing the long name of a short entry and scanning from its first entry returns the entry with exactly that name. */
  method WriteThenLocate(dirents: array<Dirent>, at: nat, name: seq<nat>, q: Query) returns (found: Located)
    requires GoodName(name) && DirentsNeeded(name) <= at < dirents.Length && IsShort(dirents[at])
    modifies dirents
    ensures Wanted(q, old(dirents[at]), true, name) ==> found == Found(at, name, !q.all && q.shortMatches(old(dirents[at])))
  {
    ConstructLfn(dirents, at, name);
    NameFoundAt(dirents[..], at, name, NoName(), q);
    found := LocateDirent(dirents, at - DirentsNeeded(name), q);
  }
}
