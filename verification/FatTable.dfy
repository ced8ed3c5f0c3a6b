/**
  The FAT as it lies in the volume file: packed 12-bit entries, 16-bit entries,
  or 32-bit entries whose high four bits belong to someone else.  The routines
  here are the only writers of the FAT; each is proved to change exactly the
  entries it names, and to mark every sector it changes in the dirty set.
 */
module FatTable {
  import opened FatEntries

  const PAGE_SIZE: nat := 4096

  /** At most this many clusters are written between two rounds of pinning. */
  const MAXCOUNTCLUS: nat := 0x1_0000

  /** Slots for pinned pages: the pages of one round and two to spare. */
  const COUNTSAVEDBCBS: nat := MAXCOUNTCLUS * 4 / PAGE_SIZE + 2

  /** The bytes that k units take. */
  function Bytes(bits: IndexBits, k: nat): nat {
    match bits case Fat12 => k case Fat16 => 2 * k case Fat32 => 4 * k
  }

  /** The unit that starts at a byte offset. */
  function UnitAt(bits: IndexBits, offset: nat): nat {
    match bits case Fat12 => offset case Fat16 => offset / 2 case Fat32 => offset / 4
  }

  /** The number of the sector that holds a byte of the volume file: offset / sectorSize, counted off sector by sector. */
  function SectorOf(sectorSize: nat, offset: nat): nat
    requires sectorSize > 0
  {
    if offset < sectorSize then 0 else 1 + SectorOf(sectorSize, offset - sectorSize)
  }

  lemma {:induction false} SectorOfMonotone(sectorSize: nat, a: nat, b: nat)
    requires sectorSize > 0 && a <= b
    ensures SectorOf(sectorSize, a) <= SectorOf(sectorSize, b)
  {
    if a >= sectorSize {
      SectorOfMonotone(sectorSize, a - sectorSize, b - sectorSize);
    }
  }

  lemma {:induction false} SectorOfIsQuotient(sectorSize: nat, offset: nat)
    requires sectorSize > 0
    ensures SectorOf(sectorSize, offset) == offset / sectorSize
  {
    var rest: int := offset - sectorSize;
    if rest < 0 {
      QuotientUnique(sectorSize, offset, 0, offset);
    } else {
      SectorOfIsQuotient(sectorSize, rest);
      var q: int, r: int := rest / sectorSize, rest % sectorSize;
      assert offset == (q + 1) * sectorSize + r;
      QuotientUnique(sectorSize, offset, q + 1, r);
    }
  }

  /** A byte that does not end its sector shares the sector with its successor. */
  lemma SameSector(sectorSize: nat, offset: nat)
    requires sectorSize > 0 && offset % sectorSize != sectorSize - 1
    ensures SectorOf(sectorSize, offset + 1) == SectorOf(sectorSize, offset)
  {
    SectorOfIsQuotient(sectorSize, offset);
    SectorOfIsQuotient(sectorSize, offset + 1);
    var q: int, r: int := offset / sectorSize, offset % sectorSize;
    assert offset + 1 == q * sectorSize + (r + 1);
    QuotientUnique(sectorSize, offset + 1, q, r + 1);
  }

  /** A byte that ends its sector is followed by the first byte of the next one. */
  lemma NextSector(sectorSize: nat, offset: nat)
    requires sectorSize > 0 && offset % sectorSize == sectorSize - 1
    ensures SectorOf(sectorSize, offset + 1) == SectorOf(sectorSize, offset) + 1
  {
    SectorOfIsQuotient(sectorSize, offset);
    SectorOfIsQuotient(sectorSize, offset + 1);
    var q: int := offset / sectorSize;
    assert offset + 1 == (q + 1) * sectorSize;
    QuotientUnique(sectorSize, offset + 1, q + 1, 0);
  }

  lemma QuotientUnique(s: int, x: int, q: int, r: int)
    requires s > 0 && 0 <= r < s && x == q * s + r
    ensures x / s == q
  {
    var p := x / s;
    assert x == p * s + x % s;
    if p > q {
      ProductMonotone(q + 1, p, s);
    } else if p < q {
      ProductMonotone(p + 1, q, s);
    }
  }

  lemma ProductMonotone(a: int, b: int, s: int)
    requires a <= b && s > 0
    ensures a * s <= b * s
  {
  }

  /** Entries do not cross pages. */
  lemma PointerInPage(bits: IndexBits, reserved: nat, cluster: nat, pageNumber: nat, inPage: nat)
    requires !bits.Fat12? && inPage < PAGE_SIZE
    requires pageNumber * PAGE_SIZE + inPage == Bytes(bits, UnitOf(bits, reserved, cluster))
    ensures inPage + Bytes(bits, 1) <= PAGE_SIZE
    ensures pageNumber * PAGE_SIZE + inPage + Bytes(bits, 1) == Bytes(bits, UnitOf(bits, reserved, cluster + 1))
  {
    var unit: int := UnitOf(bits, reserved, cluster);
    if bits.Fat32? {
      assert inPage == 4 * (unit - 1024 * pageNumber);
    } else {
      assert inPage == 2 * (unit - 2048 * pageNumber);
    }
  }

  /** Reserved sectors end on a 128-byte boundary, so an entry starts where the arithmetic of the driver says. */
  lemma EntryOffset(bits: IndexBits, r: nat, i: nat)
    ensures Bytes(bits, UnitOf(bits, 128 * r, i)) == 128 * r + (match bits case Fat12 => i * 3 / 2 case Fat16 => 2 * i case Fat32 => 4 * i)
  {
    match bits {
      case Fat12 =>
      case Fat16 => assert 128 * r / 2 == 64 * r;
      case Fat32 => assert 128 * r / 4 == 32 * r;
    }
  }

  /**
    Entry 2 of a FAT16, and any entry of a FAT32 whose number is 2 modulo 8, does
    not start a page.  The scan relies on it: it takes a pointer at a page
    boundary for one that has run off the page before.
   */
  lemma ScanStartsInsidePage(bits: IndexBits, reserved: nat, start: nat)
    requires reserved % 128 == 0
    requires match bits case Fat12 => true case Fat16 => start == 2 case Fat32 => start % 8 == 2
    ensures !bits.Fat12? ==> Bytes(bits, UnitOf(bits, reserved, start)) % PAGE_SIZE != 0
  {
    var r := reserved / 128;
    EntryOffset(bits, r, start);
    if bits.Fat16? {
      NotAPage(r, 4);
    } else if bits.Fat32? {
      assert start == 8 * (start / 8) + 2;
      NotAPage(4 * r + start / 8, 8);
    }
  }

  lemma NotAPage(k: int, rest: int)
    requires rest == 4 || rest == 8
    ensures rest == 4 ==> (128 * k + rest) % PAGE_SIZE != 0
    ensures rest == 8 ==> (32 * k + rest) % PAGE_SIZE != 0
  {
    var p, q := (128 * k + rest) / PAGE_SIZE, (32 * k + rest) / PAGE_SIZE;
    assert 128 * k + 4 != PAGE_SIZE * p;
    assert 32 * k + 8 != PAGE_SIZE * q;
  }

  /** A unit found by its page and its place in the page is the unit found by its number. */
  lemma UnitInPage(bits: IndexBits, q: nat)
    requires !bits.Fat12?
    ensures var offset := Bytes(bits, q);
      UnitAt(bits, offset / PAGE_SIZE * PAGE_SIZE) + offset % PAGE_SIZE / Bytes(bits, 1) == q
  {
    if bits.Fat32? {
      assert 4 * q / 4096 == q / 1024;
      assert 4 * q % 4096 == 4 * (q % 1024);
    } else {
      assert 2 * q / 4096 == q / 2048;
      assert 2 * q % 4096 == 2 * (q % 2048);
    }
  }

  /** A page that starts at or before an offset is no later than the offset's page. */
  lemma PageReached(page: nat, offset: nat)
    requires (page + 1) * PAGE_SIZE <= offset
    ensures page + 1 <= offset / PAGE_SIZE
  {
  }

  /** The unit index of the first unit of entry i. */
  function UnitOf(bits: IndexBits, reserved: nat, i: nat): nat {
    match bits
    case Fat12 => reserved + i * 3 / 2
    case Fat16 => reserved / 2 + i
    case Fat32 => reserved / 4 + i
  }

  /** The units that hold n + 2 entries exist and hold values of their width. */
  ghost predicate UnitsOk(bits: IndexBits, reserved: nat, n: nat, u: seq<nat>) {
    && UnitOf(bits, reserved, n + 1) + (if bits.Fat12? then 1 else 0) < |u|
    && forall k :: 0 <= k < |u| ==> u[k] < match bits case Fat12 => 0x100 case Fat16 => 0x1_0000 case Fat32 => 0x1_0000_0000
  }

  /** Two neighbouring bytes as FatLookup12BitEntry and FatSet12BitEntry copy them. */
  ghost function Pair(u: seq<nat>, o: nat): nat
    requires o + 1 < |u|
  {
    u[o] + 0x100 * u[o + 1]
  }

  /** The value of entry i. */
  ghost function EntryAt(bits: IndexBits, reserved: nat, n: nat, u: seq<nat>, i: nat): nat
    requires UnitsOk(bits, reserved, n, u) && i <= n + 1
  {
    var o := UnitOf(bits, reserved, i);
    match bits
    case Fat12 => if i % 2 == 1 then Pair(u, o) / 16 else Pair(u, o) % 0x1000
    case Fat16 => u[o]
    case Fat32 => u[o] % 0x1000_0000
  }

  /**
    Where entry i lies, in bytes: two 12-bit entries in every three bytes, the even one in
    the first byte and the low half of the second, the odd one in the high half of the
    second and the third; 16- and 32-bit entries low byte first, of which the units are
    the words, and of 32 bits the low 28.
   */
  lemma EntryByBytes(bits: IndexBits, reserved: nat, n: nat, u: seq<nat>, i: nat)
    requires UnitsOk(bits, reserved, n, u) && i <= n + 1 && reserved % 128 == 0
    ensures var e := EntryAt(bits, reserved, n, u, i);
      match bits
      case Fat12 =>
        var at := reserved + 3 * (i / 2);
        at + 1 < |u| && if i % 2 == 0 then e == u[at] + 0x100 * (u[at + 1] % 0x10) else at + 2 < |u| && e == u[at + 1] / 0x10 + 0x10 * u[at + 2]
      case Fat16 => reserved + 2 * i == 2 * (reserved / 2 + i) && e == u[reserved / 2 + i]
      case Fat32 => reserved + 4 * i == 4 * (reserved / 4 + i) && e == u[reserved / 4 + i] % 0x1000_0000
  {
    match bits {
      case Fat12 => Entry12ByBytes(reserved, n, u, i);
      case Fat16 => WholeWords(reserved);
      case Fat32 => WholeWords(reserved);
    }
  }

  lemma WholeWords(reserved: nat)
    requires reserved % 128 == 0
    ensures reserved == 2 * (reserved / 2) == 4 * (reserved / 4)
  {
    var q: int := reserved / 128;
    assert reserved == 128 * q + 0;
    QuotientUnique(2, reserved, 64 * q, 0);
    QuotientUnique(4, reserved, 32 * q, 0);
  }

  lemma Entry12ByBytes(reserved: nat, n: nat, u: seq<nat>, i: nat)
    requires UnitsOk(Fat12, reserved, n, u) && i <= n + 1
    ensures var at, e := reserved + 3 * (i / 2), EntryAt(Fat12, reserved, n, u, i);
      at + 1 < |u| && if i % 2 == 0 then e == u[at] + 0x100 * (u[at + 1] % 0x10) else at + 2 < |u| && e == u[at + 1] / 0x10 + 0x10 * u[at + 2]
  {
    ByteOf12(reserved, i);
    Entry12Is(reserved, n, u, i);
    hide *;
  }

  lemma UnitsReach(reserved: nat, n: nat, u: seq<nat>, i: nat)
    requires UnitsOk(Fat12, reserved, n, u) && i <= n + 1
    ensures UnitOf(Fat12, reserved, i) + 1 < |u| && forall k :: 0 <= k < |u| ==> u[k] < 0x100
  {
  }

  lemma ReadPair(a: nat, b: nat)
    requires a < 0x100 && b < 0x100
    ensures (a + 0x100 * b) % 0x1000 == a + 0x100 * (b % 16)
    ensures (a + 0x100 * b) / 16 == a / 16 + 16 * b
    ensures (a + 0x100 * b) % 16 == a % 16
    ensures (a + 0x100 * b) / 0x1000 == b / 16
  {
  }

  /** The two bytes an even entry leaves: its low eight bits, and its high four below the neighbour's four. */
  lemma EvenBytes(v: nat, high: nat, w: nat)
    requires v < 0x1000 && high < 16 && w == v + high * 0x1000
    ensures w % 0x100 == v % 0x100 && w / 0x100 % 0x100 == v / 0x100 + high * 16
    ensures (v / 0x100 + high * 16) / 16 == high
    ensures v % 0x100 + 0x100 * ((v / 0x100 + high * 16) % 16) == v
  {
  }

  /** The two bytes an odd entry leaves: its low four bits above the neighbour's four, and its high eight. */
  lemma OddBytes(v: nat, low: nat, w: nat)
    requires v < 0x1000 && low < 16 && w == v * 16 + low
    ensures w % 0x100 == v % 16 * 16 + low && w / 0x100 % 0x100 == v / 16
    ensures (v % 16 * 16 + low) % 16 == low
    ensures (v % 16 * 16 + low) / 16 + 16 * (v / 16) == v
  {
  }

  /** The two-byte value FatSet12BitEntry stores to make an entry v. */
  function Merged12(i: nat, v: nat, pair: nat): nat {
    if i % 2 == 1 then v * 16 + pair % 16 else v + pair / 0x1000 * 0x1000
  }

  /** The units after v is stored in 12-bit entry i. */
  ghost predicate Stored12(reserved: nat, n: nat, u: seq<nat>, u': seq<nat>, i: nat, v: nat)
    requires UnitsOk(Fat12, reserved, n, u) && i <= n + 1
  {
    var o := UnitOf(Fat12, reserved, i);
    var w := Merged12(i, v, Pair(u, o));
    u' == u[o := w % 0x100][o + 1 := w / 0x100 % 0x100]
  }

  lemma Store12Entry(reserved: nat, n: nat, u: seq<nat>, u': seq<nat>, i: nat, v: nat)
    requires UnitsOk(Fat12, reserved, n, u) && i <= n + 1 && v < 0x1000
    requires Stored12(reserved, n, u, u', i, v)
    ensures UnitsOk(Fat12, reserved, n, u')
    ensures EntryAt(Fat12, reserved, n, u', i) == v
    ensures var o := UnitOf(Fat12, reserved, i);
      if i % 2 == 1 then u'[o] % 16 == u[o] % 16 else u'[o + 1] / 16 == u[o + 1] / 16
  {
    var o := UnitOf(Fat12, reserved, i);
    var w := Merged12(i, v, Pair(u, o));
    ReadPair(u[o], u[o + 1]);
    if i % 2 == 1 {
      OddBytes(v, u[o] % 16, w);
    } else {
      EvenBytes(v, u[o + 1] / 16, w);
    }
    ReadPair(u'[o], u'[o + 1]);
  }

  /** Storing a 12-bit entry leaves the others alone, although neighbours share a byte with it. */
  lemma Store12Other(reserved: nat, n: nat, u: seq<nat>, u': seq<nat>, i: nat, v: nat, j: nat)
    requires UnitsOk(Fat12, reserved, n, u) && i <= n + 1 && v < 0x1000
    requires Stored12(reserved, n, u, u', i, v)
    requires j <= n + 1 && j != i
    ensures UnitsOk(Fat12, reserved, n, u')
    ensures EntryAt(Fat12, reserved, n, u', j) == EntryAt(Fat12, reserved, n, u, j)
  {
    hide *;
    Store12Entry(reserved, n, u, u', i, v);
    Stored12Says(reserved, n, u, u', i, v);
    UnitsReach(reserved, n, u, i);
    UnitsReach(reserved, n, u, j);
    Entry12Is(reserved, n, u, j);
    Entry12Is(reserved, n, u', j);
    ByteOf12(reserved, i);
    ByteOf12(reserved, j);
  }

  lemma Stored12Says(reserved: nat, n: nat, u: seq<nat>, u': seq<nat>, i: nat, v: nat)
    requires UnitsOk(Fat12, reserved, n, u) && i <= n + 1 && Stored12(reserved, n, u, u', i, v)
    ensures |u'| == |u| && forall k :: 0 <= k < |u| && k != UnitOf(Fat12, reserved, i) && k != UnitOf(Fat12, reserved, i) + 1 ==> u'[k] == u[k]
  {
  }

  lemma Entry12Is(reserved: nat, n: nat, u: seq<nat>, i: nat)
    requires UnitsOk(Fat12, reserved, n, u) && i <= n + 1
    ensures var o := UnitOf(Fat12, reserved, i);
      && o + 1 < |u|
      && EntryAt(Fat12, reserved, n, u, i) == if i % 2 == 1 then u[o] / 16 + 16 * u[o + 1] else u[o] + 0x100 * (u[o + 1] % 16)
  {
    var o := UnitOf(Fat12, reserved, i);
    UnitsReach(reserved, n, u, i);
    ReadPair(u[o], u[o + 1]);
    hide UnitOf;
    hide UnitsOk;
  }

  /** Entries come in pairs of three bytes. */
  lemma ByteOf12(reserved: nat, i: nat)
    ensures UnitOf(Fat12, reserved, i) == reserved + 3 * (i / 2) + i % 2
  {
  }

  /** Storing a whole unit of a 16- or 32-bit FAT changes that entry and no other. */
  lemma StoreWhole(bits: IndexBits, reserved: nat, n: nat, u: seq<nat>, i: nat, x: nat)
    requires !bits.Fat12? && UnitsOk(bits, reserved, n, u) && i <= n + 1
    requires x < if bits.Fat16? then 0x1_0000 else 0x1_0000_0000
    ensures var u' := u[UnitOf(bits, reserved, i) := x];
      && UnitsOk(bits, reserved, n, u')
      && EntryAt(bits, reserved, n, u', i) == Truncated(bits, x)
      && forall j :: 0 <= j <= n + 1 && j != i ==> EntryAt(bits, reserved, n, u', j) == EntryAt(bits, reserved, n, u, j)
  {
  }

  class Fat {
    const bits: IndexBits
    const numberOfClusters: nat
    const reservedBytes: nat
    const sectorSize: nat
    const units: array<nat>     // the volume file, from its first byte through the FAT
    var dirty: set<nat>         // DirtyFatMcb, by sector number
    ghost var entries: seq<nat> // what the FAT says, cluster by cluster

    /** The volume file holds the entries. */
    ghost predicate Stored()
      reads this, units
    {
      && sectorSize in {128, 256, 512, 1024, 2048, 4096}
      && reservedBytes > 0 && reservedBytes % 128 == 0 // whole sectors
      && UnitsOk(bits, reservedBytes, numberOfClusters, units[..])
      && |entries| == numberOfClusters + 2
      && forall i {:trigger EntryAt(bits, reservedBytes, numberOfClusters, units[..], i)} :: 0 <= i < |entries| ==>
        entries[i] == EntryAt(bits, reservedBytes, numberOfClusters, units[..], i)
    }

    ghost predicate Valid()
      reads this, units
    {
      && Stored()
      && |entries| == numberOfClusters + 2
      && numberOfClusters > 0 && numberOfClusters + 2 <= EntryLimit(bits)
    }

    /** Every sector in which a unit differs from what it was is marked dirty. */
    ghost predicate DirtyCovers(was: seq<nat>)
      reads this, units
      requires sectorSize > 0 && |was| == units.Length
    {
      forall k :: 0 <= k < units.Length && units[k] != was[k] ==> SectorOf(sectorSize, Bytes(bits, k)) in dirty
    }

    /** Changes confined to a range of units are covered once the sectors of that range are dirty. */
    lemma CoveredBetween(was: seq<nat>, first: nat, last: nat)
      requires sectorSize > 0 && |was| == units.Length
      requires forall k :: 0 <= k < units.Length && units[k] != was[k] ==> first <= k <= last
      requires forall s :: SectorOf(sectorSize, Bytes(bits, first)) <= s <= SectorOf(sectorSize, Bytes(bits, last)) ==> s in dirty
      ensures DirtyCovers(was)
    {
      forall k | 0 <= k < units.Length && units[k] != was[k]
        ensures SectorOf(sectorSize, Bytes(bits, k)) in dirty
      {
        SectorOfMonotone(sectorSize, Bytes(bits, first), Bytes(bits, k));
        SectorOfMonotone(sectorSize, Bytes(bits, k), Bytes(bits, last));
      }
    }

    lemma EntriesBounded()
      requires Valid()
      ensures forall i :: 0 <= i < |entries| ==> entries[i] < EntryLimit(bits)
    {
      forall i | 0 <= i < |entries| ensures entries[i] < EntryLimit(bits) {
        var o := UnitOf(bits, reservedBytes, i);
        assert entries[i] == EntryAt(bits, reservedBytes, numberOfClusters, units[..], i);
        assert units[..][o] == units[o];
      }
    }

    /** Marks sectors dirty, from the first through the last. */
    method MarkDirty(first: nat, last: nat)
      modifies this`dirty
      ensures forall s :: s in dirty <==> s in old(dirty) || first <= s <= last
    {
      var sector := first;
      while sector <= last
        invariant first <= sector
        invariant forall s :: s in dirty <==> s in old(dirty) || (first <= s < sector && s <= last)
      {
        dirty := dirty + {sector};
        sector := sector + 1;
      }
    }

    /** FatVerifyIndexIsValid: the file heap holds clusters 2 through N + 1. */
    predicate IndexIsValid(index: int) {
      2 <= index <= numberOfClusters + 1
    }

    /** Marks the sector of a byte, and the next sector when the byte ends its own. */
    method MarkPairDirty(offset: nat)
      requires sectorSize > 0
      modifies `dirty
      ensures old(dirty) <= dirty
      ensures SectorOf(sectorSize, offset) in dirty && SectorOf(sectorSize, offset + 1) in dirty
    {
      var sector := SectorOf(sectorSize, offset);
      dirty := dirty + {sector};
      if offset % sectorSize == sectorSize - 1 {
        dirty := dirty + {sector + 1};
        NextSector(sectorSize, offset);
      } else {
        SameSector(sectorSize, offset);
      }
    }

    /** The last unit that holds a part of an entry. */
    ghost function LastUnitOf(index: nat): nat {
      UnitOf(bits, reservedBytes, index) + if bits.Fat12? then 1 else 0
    }

    /** Stores a 12-bit entry; it may lie across two sectors. */
    method Store12(index: nat, v: nat)
      requires Valid() && bits.Fat12? && IndexIsValid(index) && v < 0x1000
      modifies `dirty, `entries, units
      ensures Valid() && entries == old(entries)[index := v]
      ensures forall k :: 0 <= k < units.Length && units[k] != old(units[k]) ==>
        UnitOf(bits, reservedBytes, index) <= k <= UnitOf(bits, reservedBytes, index) + 1
      ensures dirty == old(dirty)
    {
      ghost var was := units[..];
      var o := UnitOf(bits, reservedBytes, index);
      var w := Merged12(index, v, units[o] + 0x100 * units[o + 1]);
      units[o], units[o + 1] := w % 0x100, w / 0x100 % 0x100;
      entries := entries[index := v];
      assert Stored12(reservedBytes, numberOfClusters, was, units[..], index, v);
      Store12Entry(reservedBytes, numberOfClusters, was, units[..], index, v);
      forall j | 0 <= j <= numberOfClusters + 1 && j != index
        ensures EntryAt(bits, reservedBytes, numberOfClusters, units[..], j) == entries[j]
      {
        Store12Other(reservedBytes, numberOfClusters, was, units[..], index, v, j);
      }
    }

    /** Stores one unit of a 16- or 32-bit FAT, found by its byte offset. */
    method StoreUnit(ghost index: nat, offset: nat, x: nat)
      requires Valid() && !bits.Fat12? && IndexIsValid(index)
      requires offset == Bytes(bits, UnitOf(bits, reservedBytes, index))
      requires x < if bits.Fat16? then 0x1_0000 else 0x1_0000_0000
      modifies `entries, units
      ensures Valid() && entries == old(entries)[index := Truncated(bits, x)]
      ensures units[UnitOf(bits, reservedBytes, index)] == x
      ensures forall k :: 0 <= k < units.Length && units[k] != old(units[k]) ==> k == UnitOf(bits, reservedBytes, index)
    {
      ghost var was := units[..];
      StoreWhole(bits, reservedBytes, numberOfClusters, was, index, x);
      units[UnitAt(bits, offset)] := x;
      assert units[..] == was[UnitOf(bits, reservedBytes, index) := x];
      entries := entries[index := Truncated(bits, x)];
    }

    /** FatSetFatEntry: one entry is replaced; FAT32 keeps the four bits above it, and no unit outside the entry changes. */
    method SetFatEntry(index: nat, entry: nat) returns (ok: bool)
      requires Valid() && entry <= FAT_CLUSTER_LAST
      modifies `dirty, `entries, units
      ensures Valid() && ok == IndexIsValid(index)
      ensures entries == if ok then old(entries)[index := Truncated(bits, entry)] else old(entries)
      ensures ok && bits.Fat32? ==>
        units[UnitOf(bits, reservedBytes, index)] / 0x1000_0000 == old(units[UnitOf(bits, reservedBytes, index)]) / 0x1000_0000
      ensures forall k :: 0 <= k < units.Length && units[k] != old(units[k]) ==>
        ok && UnitOf(bits, reservedBytes, index) <= k <= LastUnitOf(index)
      ensures DirtyCovers(old(units[..])) && old(dirty) <= dirty
    {
      if !IndexIsValid(index) {
        return false;
      }
      ok := true;
      var offset := Bytes(bits, UnitOf(bits, reservedBytes, index));
      var sector := SectorOf(sectorSize, offset);
      if bits.Fat12? {
        MarkPairDirty(offset);
        Store12(index, Truncated(bits, entry));
      } else if bits.Fat16? {
        MarkDirty(sector, sector);
        StoreUnit(index, offset, entry % 0x1_0000);
      } else {
        MarkDirty(sector, sector);
        StoreUnit(index, offset, units[UnitAt(bits, offset)] / 0x1000_0000 * 0x1000_0000 + entry);
      }
    }

    /** The 12-bit FAT is pinned whole, and the run is stored entry by entry. */
    method SetFatRun12(start: nat, count: nat, chain: bool)
      requires Valid() && bits.Fat12? && count > 0 && IndexIsValid(start) && IndexIsValid(start + count - 1)
      modifies `dirty, `entries, units
      ensures Valid() && entries == RunWritten(bits, old(entries), start, count, chain)
      ensures forall k :: 0 <= k < units.Length && units[k] != old(units[k]) ==>
        UnitOf(bits, reservedBytes, start) <= k <= LastUnitOf(start + count - 1)
      ensures DirtyCovers(old(units[..])) && old(dirty) <= dirty
    {
      var first := SectorOf(sectorSize, reservedBytes + start * 3 / 2);
      var last := SectorOf(sectorSize, reservedBytes + ((start + count) * 3 + 2) / 2);
      MarkDirty(first, last);
      var cluster := start;
      while cluster < start + count - 1
        invariant start <= cluster <= start + count - 1
        invariant Valid() && |entries| == |old(entries)|
        invariant forall s :: s in dirty <==> s in old(dirty) || first <= s <= last
        invariant forall i :: 0 <= i < |entries| ==>
          entries[i] == if start <= i < cluster then RunEntry(bits, start, count, chain, i) else old(entries)[i]
        invariant forall k :: 0 <= k < units.Length && units[k] != old(units[k]) ==>
          UnitOf(bits, reservedBytes, start) <= k <= UnitOf(bits, reservedBytes, cluster) + 1
      {
        Store12(cluster, if chain then cluster + 1 else FAT_CLUSTER_AVAILABLE);
        cluster := cluster + 1;
      }
      Store12(cluster, if chain then LastMark(bits) else FAT_CLUSTER_AVAILABLE);
      assert entries == RunWritten(bits, old(entries), start, count, chain);
      CoveredBetween(old(units[..]), reservedBytes + start * 3 / 2, reservedBytes + ((start + count) * 3 + 2) / 2);
    }

    /** Pins the pages that hold two bytes and all between; says where each slot's page lies in the volume file. */
    method PinPages(startOffset: nat, finalOffset: nat) returns (savedPages: array<nat>, numberOfPages: nat)
      requires startOffset <= finalOffset < startOffset + MAXCOUNTCLUS * 4
      ensures fresh(savedPages) && savedPages.Length == COUNTSAVEDBCBS
      ensures numberOfPages == finalOffset / PAGE_SIZE - startOffset / PAGE_SIZE + 1 < COUNTSAVEDBCBS
      ensures forall p :: 0 <= p < numberOfPages ==> savedPages[p] == (startOffset / PAGE_SIZE + p) * PAGE_SIZE
    {
      savedPages := new nat[COUNTSAVEDBCBS];
      numberOfPages := finalOffset / PAGE_SIZE - startOffset / PAGE_SIZE + 1;
      var page, offset := 0, startOffset - startOffset % PAGE_SIZE;
      while page < numberOfPages
        invariant 0 <= page <= numberOfPages
        invariant offset == (startOffset / PAGE_SIZE + page) * PAGE_SIZE
        invariant forall p :: 0 <= p < page ==> savedPages[p] == (startOffset / PAGE_SIZE + p) * PAGE_SIZE
      {
        savedPages[page] := offset;
        page, offset := page + 1, offset + PAGE_SIZE;
      }
    }

    /** Moves the pointer on to the next pinned page if it has just crossed a page boundary (as opposed to starting on one). */
    method StepPage(savedPages: array<nat>, numberOfPages: nat, startOffset: nat, finalOffset: nat, slot: nat, inPage: nat, moved: bool)
      returns (slot': nat, inPage': nat)
      requires slot < numberOfPages <= savedPages.Length && numberOfPages == finalOffset / PAGE_SIZE - startOffset / PAGE_SIZE + 1
      requires forall p :: 0 <= p < numberOfPages ==> savedPages[p] == (startOffset / PAGE_SIZE + p) * PAGE_SIZE
      requires savedPages[slot] + inPage <= finalOffset
      requires if moved then 0 < inPage <= PAGE_SIZE else inPage < PAGE_SIZE
      ensures slot' < numberOfPages && inPage' < PAGE_SIZE
      ensures savedPages[slot'] + inPage' == savedPages[slot] + inPage
    {
      slot', inPage' := slot, inPage;
      if inPage % PAGE_SIZE == 0 && moved {
        PageReached(startOffset / PAGE_SIZE + slot, finalOffset);
        slot', inPage' := slot + 1, 0;
      }
    }

    /** Where the pages of a round lie: slot p holds page p of those from the first byte through the last. */
    ghost predicate Pinned(savedPages: array<nat>, numberOfPages: nat, startOffset: nat, finalOffset: nat)
      reads savedPages
    {
      && savedPages != units
      && numberOfPages == finalOffset / PAGE_SIZE - startOffset / PAGE_SIZE + 1 <= savedPages.Length
      && forall p :: 0 <= p < numberOfPages ==> savedPages[p] == (startOffset / PAGE_SIZE + p) * PAGE_SIZE
    }

    /** Stores one entry of a round under the pointer, and moves the pointer past it. */
    method StoreNext(cluster: nat, entry: nat, savedPages: array<nat>, numberOfPages: nat, startOffset: nat, finalOffset: nat,
                     slot: nat, inPage: nat, moved: bool)
      returns (slot': nat, inPage': nat)
      requires Valid() && !bits.Fat12? && IndexIsValid(cluster) && entry <= EntryLimit(bits)
      requires numberOfPages > 0 && Pinned(savedPages, numberOfPages, startOffset, finalOffset)
      requires slot < numberOfPages && if moved then 0 < inPage <= PAGE_SIZE else inPage < PAGE_SIZE
      requires savedPages[slot] + inPage == Bytes(bits, UnitOf(bits, reservedBytes, cluster)) <= finalOffset
      modifies `entries, units
      ensures Valid() && entries == old(entries)[cluster := Truncated(bits, entry)]
      ensures bits.Fat32? ==> units[UnitOf(bits, reservedBytes, cluster)] == entry
      ensures forall k :: 0 <= k < units.Length && units[k] != old(units[k]) ==> k == UnitOf(bits, reservedBytes, cluster)
      ensures slot' < numberOfPages && 0 < inPage' <= PAGE_SIZE
      ensures savedPages[slot'] + inPage' == Bytes(bits, UnitOf(bits, reservedBytes, cluster + 1))
    {
      slot', inPage' := StepPage(savedPages, numberOfPages, startOffset, finalOffset, slot, inPage, moved);
      PointerInPage(bits, reservedBytes, cluster, startOffset / PAGE_SIZE + slot', inPage');
      StoreUnit(cluster, savedPages[slot'] + inPage', if bits.Fat16? then entry % 0x1_0000 else entry);
      inPage' := inPage' + Bytes(bits, 1);
    }

    /**
      The first count clusters of a run of n hold their entries as whole words:
      the four bits above a FAT32 entry are cleared with it.
     */
    ghost predicate WordsWritten(start: nat, count: nat, n: nat, chain: bool)
      reads this, units
      requires Valid() && (count > 0 ==> IndexIsValid(start) && IndexIsValid(start + count - 1))
    {
      forall i :: start <= i < start + count ==> units[UnitOf(bits, reservedBytes, i)] == RunEntry(bits, start, n, chain, i)
    }

    /**
      Stores the entries of one round through a pointer into the pinned pages:
      every cluster links to its successor, or is freed.
     */
    method StoreRun(start: nat, count: nat, chain: bool, savedPages: array<nat>, numberOfPages: nat, startOffset: nat, finalOffset: nat)
      returns (slot: nat, inPage: nat)
      requires Valid() && !bits.Fat12? && 0 < count && IndexIsValid(start) && IndexIsValid(start + count - 1)
      requires numberOfPages > 0 && Pinned(savedPages, numberOfPages, startOffset, finalOffset)
      requires startOffset == Bytes(bits, UnitOf(bits, reservedBytes, start))
      requires finalOffset == Bytes(bits, UnitOf(bits, reservedBytes, start + count - 1))
      modifies `entries, units
      ensures Valid() && |entries| == |old(entries)|
      ensures forall i :: 0 <= i < |entries| ==>
        entries[i] == (if start <= i < start + count then Truncated(bits, RunEntry(bits, start, count + 1, chain, i)) else old(entries)[i])
      ensures bits.Fat32? ==> WordsWritten(start, count, count + 1, chain)
      ensures forall k :: 0 <= k < units.Length && units[k] != old(units[k]) ==>
        UnitOf(bits, reservedBytes, start) <= k <= UnitOf(bits, reservedBytes, start + count - 1)
      ensures slot < numberOfPages
      ensures savedPages[slot] + inPage == Bytes(bits, UnitOf(bits, reservedBytes, start + count))
    {
      hide EntryAt;
      hide SectorOf;
      slot, inPage := 0, startOffset % PAGE_SIZE;
      var cluster := start;
      while cluster <= start + count - 1
        modifies `entries, units
        invariant start <= cluster <= start + count
        invariant Valid() && |entries| == |old(entries)|
        invariant 0 <= slot < numberOfPages
        invariant if cluster != start then 0 < inPage <= PAGE_SIZE else inPage < PAGE_SIZE
        invariant savedPages[slot] + inPage == Bytes(bits, UnitOf(bits, reservedBytes, cluster))
        invariant forall i :: 0 <= i < |entries| ==>
          entries[i] == if start <= i < cluster then Truncated(bits, RunEntry(bits, start, count + 1, chain, i)) else old(entries)[i]
        invariant bits.Fat32? ==> WordsWritten(start, cluster - start, count + 1, chain)
        invariant forall k :: 0 <= k < units.Length && units[k] != old(units[k]) ==>
          UnitOf(bits, reservedBytes, start) <= k <= UnitOf(bits, reservedBytes, start + count - 1)
      {
        var entry := if chain then cluster + 1 else FAT_CLUSTER_AVAILABLE;
        slot, inPage := StoreNext(cluster, entry, savedPages, numberOfPages, startOffset, finalOffset, slot, inPage, cluster != start);
        cluster := cluster + 1;
      }
    }

    /**
      One round of the 16- and 32-bit run writer: the pages that hold the entries
      are pinned and their sectors marked dirty, and the entries are then stored.
      The last entry becomes the end mark if the chain ends in this round.
     */
    method SetFatRunRound(start: nat, count: nat, chain: bool, ends: bool)
      requires Valid() && !bits.Fat12? && 0 < count <= MAXCOUNTCLUS
      requires IndexIsValid(start) && IndexIsValid(start + count - 1)
      requires chain && !ends ==> IndexIsValid(start + count)
      modifies `dirty, `entries, units
      ensures Valid() && |entries| == |old(entries)|
      ensures forall i :: 0 <= i < |entries| ==>
        entries[i] == (if start <= i < start + count then RunEntry(bits, start, if ends then count else count + 1, chain, i) else old(entries)[i])
      ensures bits.Fat32? ==> WordsWritten(start, count, if ends then count else count + 1, chain)
      ensures forall k :: 0 <= k < units.Length && units[k] != old(units[k]) ==>
        UnitOf(bits, reservedBytes, start) <= k <= UnitOf(bits, reservedBytes, start + count - 1)
      ensures DirtyCovers(old(units[..])) && old(dirty) <= dirty
    {
      hide EntryAt;
      hide SectorOf;
      var startOffset := Bytes(bits, UnitOf(bits, reservedBytes, start));
      var finalOffset := Bytes(bits, UnitOf(bits, reservedBytes, start + count - 1));
      var savedPages, numberOfPages := PinPages(startOffset, finalOffset);
      MarkDirty(SectorOf(sectorSize, startOffset), SectorOf(sectorSize, finalOffset));
      var slot, inPage := StoreRun(start, count, chain, savedPages, numberOfPages, startOffset, finalOffset);
      if chain && ends {
        StoreUnit(start + count - 1, savedPages[slot] + inPage - Bytes(bits, 1), LastMark(bits));
      }
      CoveredBetween(old(units[..]), UnitOf(bits, reservedBytes, start), UnitOf(bits, reservedBytes, start + count - 1));
    }

    /** The 32-bit FAT is written in rounds of at most MAXCOUNTCLUS entries. */
    method SetFatRun32(start: nat, count: nat, chain: bool)
      requires Valid() && bits.Fat32? && count > 0 && IndexIsValid(start) && IndexIsValid(start + count - 1)
      modifies `dirty, `entries, units
      ensures Valid() && |entries| == |old(entries)|
      ensures forall i :: 0 <= i < |entries| ==>
        entries[i] == (if start <= i < start + count then RunEntry(bits, start, count, chain, i) else old(entries)[i])
      ensures WordsWritten(start, count, count, chain)
      ensures forall k :: 0 <= k < units.Length && units[k] != old(units[k]) ==>
        UnitOf(bits, reservedBytes, start) <= k <= UnitOf(bits, reservedBytes, start + count - 1)
      ensures DirtyCovers(old(units[..])) && old(dirty) <= dirty
    {
      hide EntryAt;
      hide SectorOf;
      var from, left := start, count;
      while left > MAXCOUNTCLUS
        invariant 0 < left <= count && from + left == start + count
        invariant Valid() && |entries| == |old(entries)| && old(dirty) <= dirty
        invariant forall i :: 0 <= i < |entries| ==>
          entries[i] == (if start <= i < from then RunEntry(bits, start, count, chain, i) else old(entries)[i])
        invariant WordsWritten(start, from - start, count, chain)
        invariant forall k :: 0 <= k < units.Length && units[k] != old(units[k]) ==>
          UnitOf(bits, reservedBytes, start) <= k < UnitOf(bits, reservedBytes, from)
        invariant DirtyCovers(old(units[..]))
      {
        SetFatRunRound(from, MAXCOUNTCLUS, chain, false);
        from, left := from + MAXCOUNTCLUS, left - MAXCOUNTCLUS;
      }
      SetFatRunRound(from, left, chain, true);
    }

    /**
      FatSetFatRun: a run of clusters is chained together or freed; a FAT32 run is
      written in rounds.  Whole words are stored here, so that the four bits above
      a FAT32 entry are cleared; no unit outside the run changes.
     */
    method SetFatRun(start: nat, count: nat, chain: bool) returns (ok: bool)
      requires Valid()
      modifies `dirty, `entries, units
      ensures Valid()
      ensures ok == (IndexIsValid(start) && IndexIsValid(start + count - 1))
      ensures entries == if ok then RunWritten(bits, old(entries), start, count, chain) else old(entries)
      ensures ok && bits.Fat32? ==> WordsWritten(start, count, count, chain)
      ensures forall k :: 0 <= k < units.Length && units[k] != old(units[k]) ==>
        ok && count > 0 && UnitOf(bits, reservedBytes, start) <= k <= LastUnitOf(start + count - 1)
      ensures DirtyCovers(old(units[..])) && old(dirty) <= dirty
    {
      if !IndexIsValid(start) || !IndexIsValid(start + count - 1) {
        return false;
      }
      ok := true;
      if count == 0 {
        assert entries == RunWritten(bits, old(entries), start, count, chain);
        return;
      }
      if bits.Fat12? {
        SetFatRun12(start, count, chain);
      } else if bits.Fat16? {
        SetFatRunRound(start, count, chain, true);
      } else {
        SetFatRun32(start, count, chain);
      }
      assert entries == RunWritten(bits, old(entries), start, count, chain);
    }

    /**
      FatLookupFatEntry: reads one entry.  A page of a 16- or 32-bit FAT stays pinned
      between calls (pinned is its number, or -1), and is read again only for an
      entry on another page.
     */
    method LookupFatEntry(index: int, pinned: int) returns (ok: bool, entry: nat, pinned': int)
      requires Valid()
      ensures ok == IndexIsValid(index)
      ensures ok ==> entry == entries[index] && entry < EntryLimit(bits)
    {
      entry, pinned' := 0, pinned;
      if !IndexIsValid(index) {
        return false, entry, pinned';
      }
      ok := true;
      EntriesBounded();
      var o := UnitOf(bits, reservedBytes, index);
      assert entries[index] == EntryAt(bits, reservedBytes, numberOfClusters, units[..], index);
      if bits.Fat12? {
        var pair := units[o] + 0x100 * units[o + 1];
        entry := if index % 2 == 1 then pair / 16 else pair % 0x1000;
      } else {
        var offset := Bytes(bits, o);
        var pageEntryOffset := offset % PAGE_SIZE / Bytes(bits, 1);
        if pinned == -1 || offset / PAGE_SIZE != pinned {
          pinned' := offset / PAGE_SIZE;
        }
        UnitInPage(bits, o);
        var unit := units[UnitAt(bits, pinned' * PAGE_SIZE) + pageEntryOffset];
        entry := Truncated(bits, unit);
      }
    }

    /**
      The pointer of a scan: a page and a place after the start of that page.  A place
      at the end of the page stands for the start of the next one.  (A 12-bit FAT is
      read whole, and its scan needs no pointer.)
     */
    ghost predicate ScanPointer(index: nat, page: nat, inPage: nat) {
      !bits.Fat12? ==> page * PAGE_SIZE + inPage == Bytes(bits, UnitOf(bits, reservedBytes, index)) && 0 < inPage <= PAGE_SIZE
    }

    /** Sets up the pointer of a scan, and reads the first guess: for a 12-bit FAT, that is entry 0. */
    method StartScan(start: nat) returns (guess: nat, page: nat, inPage: nat)
      requires Valid() && IndexIsValid(start)
      requires match bits case Fat12 => true case Fat16 => start == 2 case Fat32 => start % 8 == 2
      ensures ScanPointer(start, page, inPage) && guess == entries[if bits.Fat12? then 0 else start]
    {
      page, inPage := 0, 0;
      if bits.Fat12? {
        assert entries[0] == EntryAt(bits, reservedBytes, numberOfClusters, units[..], 0);
        guess := (units[reservedBytes] + 0x100 * units[reservedBytes + 1]) % 0x1000;
      } else {
        var offset := Bytes(bits, UnitOf(bits, reservedBytes, start));
        ScanStartsInsidePage(bits, reservedBytes, start);
        page, inPage := offset / PAGE_SIZE, offset % PAGE_SIZE;
        guess := ReadUnit(start, page, inPage);
      }
    }

    /** Reads the entry under a pointer. */
    method ReadUnit(ghost index: nat, page: nat, inPage: nat) returns (entry: nat)
      requires Valid() && !bits.Fat12? && IndexIsValid(index)
      requires page * PAGE_SIZE + inPage == Bytes(bits, UnitOf(bits, reservedBytes, index))
      ensures entry == entries[index]
    {
      assert entries[index] == EntryAt(bits, reservedBytes, numberOfClusters, units[..], index);
      entry := Truncated(bits, units[UnitAt(bits, page * PAGE_SIZE + inPage)]);
    }

    /** Reads the next entry of a scan, first stepping onto the next page when the pointer has reached the end of its own. */
    method NextScanned(index: nat, page: nat, inPage: nat) returns (entry: nat, page': nat, inPage': nat)
      requires Valid() && IndexIsValid(index) && ScanPointer(index, page, inPage)
      ensures entry == entries[index] && ScanPointer(index + 1, page', inPage')
    {
      page', inPage' := page, inPage;
      if bits.Fat12? {
        var ok, pinned;
        ok, entry, pinned := LookupFatEntry(index, -1);
      } else {
        if inPage' % PAGE_SIZE == 0 {
          page', inPage' := page' + 1, 0;
        }
        PointerInPage(bits, reservedBytes, index, page', inPage');
        entry := ReadUnit(index, page', inPage');
        inPage' := inPage' + Bytes(bits, 1);
      }
    }
  }
}
